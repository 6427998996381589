/** The walk from a derived slug to one that is free (app/models/content.py). `taken` is every
    address in use or reserved in the row's own address space. */
module FreeSlugs {
  import opened Numerals
  import Sets
  import opened Slugs
  import opened Wrappers

  /** Numbered probes before the walk turns to random ones. */
  const LAST_PROBE: nat := 101

  function Take(s: string, n: int): string {
    if n <= 0 then "" else if n < |s| then s[..n] else s
  }

  function Suffix(n: nat): string {
    "-" + Dec(n)
  }

  /** The n-th address tried, counted from one. */
  function Probe(base: string, n: nat): string {
    if n <= 1 then base else Take(base, DERIVED_SLUG_MAX - |Suffix(n)|) + Suffix(n)
  }

  function Drawn(base: string, hex: string): string {
    Take(base, DERIVED_SLUG_MAX - 7) + "-" + hex
  }

  function FirstFree(base: string, taken: set<string>, n: nat): (m: nat)
    requires 1 <= n <= LAST_PROBE + 1
    ensures n <= m <= LAST_PROBE + 1
    ensures m <= LAST_PROBE ==> Probe(base, m) !in taken
    ensures forall k :: n <= k < m ==> Probe(base, k) in taken
    decreases LAST_PROBE + 1 - n
  {
    if n > LAST_PROBE || Probe(base, n) !in taken then n else FirstFree(base, taken, n + 1)
  }

  function FirstDrawn(base: string, taken: set<string>, draws: seq<string>): Option<string> {
    if draws == [] then None
    else if Drawn(base, draws[0]) !in taken then Some(Drawn(base, draws[0]))
    else FirstDrawn(base, taken, draws[1..])
  }

  /** `draws` are the random words in the order they come; None says they ran out while every
      address tried was taken. */
  function Answer(base: string, scoped: bool, taken: set<string>, draws: seq<string>): Option<string> {
    if base == "" || !scoped then Some(base)
    else
      var m := FirstFree(base, taken, 1);
      if m <= LAST_PROBE then Some(Probe(base, m)) else FirstDrawn(base, taken, draws)
  }

  method FreeSlug(base: string, scoped: bool, taken: set<string>, draws: seq<string>) returns (r: Option<string>)
    ensures r == Answer(base, scoped, taken, draws)
  {
    if base == "" || !scoped {
      return Some(base);
    }
    var candidate, n := base, 1;
    while candidate in taken
      invariant 1 <= n < LAST_PROBE && candidate == Probe(base, n)
      invariant FirstFree(base, taken, 1) == FirstFree(base, taken, n)
      decreases LAST_PROBE - n
    {
      n := n + 1;
      candidate := Take(base, DERIVED_SLUG_MAX - |Suffix(n)|) + Suffix(n);
      if n > 100 {
        var drawn := 0;
        while candidate in taken
          invariant 0 <= drawn <= |draws|
          invariant candidate !in taken && drawn == 0 ==> FirstFree(base, taken, 1) == n && candidate == Probe(base, n)
          invariant candidate in taken || drawn > 0 ==> FirstFree(base, taken, 1) == LAST_PROBE + 1
          invariant candidate in taken ==> FirstDrawn(base, taken, draws) == FirstDrawn(base, taken, draws[drawn..])
          invariant candidate !in taken && drawn > 0 ==> FirstDrawn(base, taken, draws) == Some(candidate)
          decreases |draws| - drawn
        {
          if drawn == |draws| {
            return None;
          }
          candidate := Drawn(base, draws[drawn]);
          drawn := drawn + 1;
        }
        return Some(candidate);
      }
    }
    r := Some(candidate);
  }

  // ------------------------------------------------------------------ what it answers

  lemma {:induction false} DrawnIsNotEmpty(base: string, taken: set<string>, draws: seq<string>)
    ensures FirstDrawn(base, taken, draws) != Some("")
  {
    if draws != [] {
      assert Drawn(base, draws[0]) != "";
      DrawnIsNotEmpty(base, taken, draws[1..]);
    }
  }

  /** A free base is kept, and only a base of nothing comes to nothing. */
  lemma FreeBaseIsKept(base: string, taken: set<string>, draws: seq<string>)
    ensures Answer(base, true, taken, draws) == Some("") <==> base == ""
    ensures base !in taken ==> Answer(base, true, taken, draws) == Some(base)
    ensures Answer(base, false, taken, draws) == Some(base)
  {
    if base != "" {
      assert base == Probe(base, 1);
      DrawnIsNotEmpty(base, taken, draws);
      var m := FirstFree(base, taken, 1);
      assert Probe(base, m) != "";
    }
  }

  /** A slug `slugify` derives. */
  ghost predicate Derived(base: string) {
    base != "" && Clean(base) && |base| <= DERIVED_SLUG_MAX
  }

  ghost predicate Hex(s: string) {
    |s| == 6 && forall k :: 0 <= k < |s| ==> '0' <= s[k] <= '9' || 'a' <= s[k] <= 'f'
  }

  lemma {:induction false} DecLength(n: nat, d: nat)
    requires d >= 1 && n < Power10(d)
    ensures |Dec(n)| <= d
  {
    if n >= 10 {
      DecLength(n / 10, d - 1);
    }
  }

  function Power10(d: nat): nat {
    if d == 0 then 1 else 10 * Power10(d - 1)
  }

  lemma ProbeIsWellFormed(base: string, n: nat)
    requires Derived(base) && 1 <= n <= LAST_PROBE
    ensures Segment(Probe(base, n), 198) && |Probe(base, n)| <= DERIVED_SLUG_MAX
  {
    if n > 1 {
      assert Power10(3) == 1000;
      DecLength(n, 3);
    }
  }

  /** Whatever is taken, the answer is free, well formed and at most sixty characters. */
  lemma AnswerIsWellFormed(base: string, taken: set<string>, draws: seq<string>, answer: string)
    requires Derived(base) && forall d :: d in draws ==> Hex(d)
    requires Answer(base, true, taken, draws) == Some(answer)
    ensures answer !in taken && Segment(answer, 198) && |answer| <= DERIVED_SLUG_MAX
  {
    if FirstFree(base, taken, 1) <= LAST_PROBE {
      ProbeIsWellFormed(base, FirstFree(base, taken, 1));
    } else {
      DrawnIsWellFormed(base, taken, draws);
    }
  }

  lemma {:induction false} DrawnIsWellFormed(base: string, taken: set<string>, draws: seq<string>)
    requires Derived(base) && forall d :: d in draws ==> Hex(d)
    ensures var r := FirstDrawn(base, taken, draws);
            r.Some? ==> r.value !in taken && Segment(r.value, 198) && |r.value| <= DERIVED_SLUG_MAX
  {
    if draws != [] {
      assert Hex(draws[0]);
      DrawnIsWellFormed(base, taken, draws[1..]);
    }
  }

  // ------------------------------------------------------------------ how long it takes

  /** The base already ends like its own n-th probe, and is as long as a slug gets. */
  predicate CollidesAt(base: string, n: nat) {
    |base| == DERIVED_SLUG_MAX && |Suffix(n)| <= |base| && base[|base| - |Suffix(n)|..] == Suffix(n)
  }

  predicate SelfCollides(base: string) {
    exists n :: 2 <= n <= LAST_PROBE && CollidesAt(base, n)
  }

  lemma {:induction false} DigitsFollow(a: string, digits: string)
    requires forall k :: 0 <= k < |digits| ==> IsDigit(digits[k])
    ensures LastHyphen(a + ("-" + digits)) == |a|
  {
    var s := a + ("-" + digits);
    if digits != "" {
      var shorter := digits[..|digits| - 1];
      assert s[|s| - 1] == digits[|digits| - 1];
      assert s[..|s| - 1] == a + ("-" + shorter);
      DigitsFollow(a, shorter);
    }
  }

  lemma EndsDiffer(a: string, b: string, i: nat, j: nat)
    requires a + Suffix(i) == b + Suffix(j)
    ensures i == j
  {
    DigitsFollow(a, Dec(i));
    DigitsFollow(b, Dec(j));
    assert (a + Suffix(i))[|a| + 1..] == Dec(i) && (b + Suffix(j))[|b| + 1..] == Dec(j);
    DecInjective(i, j);
  }

  lemma ProbesDiffer(base: string, i: nat, j: nat)
    requires 2 <= i && 2 <= j && i != j
    ensures Probe(base, i) != Probe(base, j)
  {
    if Probe(base, i) == Probe(base, j) {
      EndsDiffer(Take(base, DERIVED_SLUG_MAX - |Suffix(i)|), Take(base, DERIVED_SLUG_MAX - |Suffix(j)|), i, j);
    }
  }

  lemma BaseIsItsProbe(base: string, n: nat)
    requires Derived(base) && 2 <= n <= LAST_PROBE
    ensures Probe(base, n) == base <==> CollidesAt(base, n)
  {
    assert Power10(3) == 1000;
    DecLength(n, 3);
    var k := DERIVED_SLUG_MAX - |Suffix(n)|;
    if CollidesAt(base, n) {
      assert base == base[..k] + base[k..];
    }
  }

  ghost function ProbeSet(base: string, m: nat): set<string> {
    set n | 1 <= n <= m :: Probe(base, n)
  }

  ghost function Wasted(base: string, m: nat): nat {
    if exists n :: 2 <= n <= m && CollidesAt(base, n) then 1 else 0
  }

  /** The first m probes are m addresses, or one fewer where the base is among its own. */
  lemma {:induction false} CountProbes(base: string, m: nat)
    requires Derived(base) && 1 <= m <= LAST_PROBE
    ensures |ProbeSet(base, m)| == m - Wasted(base, m)
  {
    if m == 1 {
      assert Probe(base, 1) in ProbeSet(base, 1);
      assert ProbeSet(base, 1) == {base};
    } else {
      CountProbes(base, m - 1);
      OneMoreProbe(base, m);
      OneMoreWasted(base, m);
    }
  }

  lemma OneMoreProbe(base: string, m: nat)
    requires Derived(base) && 2 <= m <= LAST_PROBE
    ensures |ProbeSet(base, m)| == |ProbeSet(base, m - 1)| + if CollidesAt(base, m) then 0 else 1
  {
    assert ProbeSet(base, m) == ProbeSet(base, m - 1) + {Probe(base, m)};
    BaseIsItsProbe(base, m);
    NewProbe(base, m);
  }

  lemma OneMoreWasted(base: string, m: nat)
    requires Derived(base) && 2 <= m <= LAST_PROBE
    ensures Wasted(base, m) == Wasted(base, m - 1) + if CollidesAt(base, m) then 1 else 0
  {
    if CollidesAt(base, m) { CollidesOnce(base, m); }
    assert forall n :: 2 <= n <= m && CollidesAt(base, n) ==> n == m || 2 <= n <= m - 1;
  }

  lemma NewProbe(base: string, m: nat)
    requires 2 <= m
    ensures Probe(base, m) in ProbeSet(base, m - 1) <==> Probe(base, m) == base
  {
    forall n | 2 <= n <= m - 1 ensures Probe(base, n) != Probe(base, m) { ProbesDiffer(base, n, m); }
    assert Probe(base, 1) == base;
  }

  lemma CollidesOnce(base: string, m: nat)
    requires Derived(base) && 2 <= m <= LAST_PROBE && CollidesAt(base, m)
    ensures forall n :: 2 <= n < m ==> !CollidesAt(base, n)
  {
    forall n | 2 <= n < m ensures !CollidesAt(base, n) {
      BaseIsItsProbe(base, n);
      BaseIsItsProbe(base, m);
      ProbesDiffer(base, n, m);
    }
  }

  /** By pigeonhole: with k addresses taken the walk ends within k + 1 probes, one more for a
      base that is its own probe, and so never draws while that is within the numbered ones. */
  lemma FreeWithin(base: string, taken: set<string>)
    requires Derived(base)
    ensures FirstFree(base, taken, 1) <= |taken| + 1 + if SelfCollides(base) then 1 else 0
  {
    var m := FirstFree(base, taken, 1);
    if m > 1 {
      CountProbes(base, m - 1);
      assert ProbeSet(base, m - 1) <= taken;
      Sets.SubsetIsSmaller(ProbeSet(base, m - 1), taken);
    }
  }

  /** While fewer than a hundred addresses are taken nothing random is needed: the answer is one of the
      first probes, and whatever the draws the same. */
  lemma NumberedWhileUncrowded(base: string, taken: set<string>, draws: seq<string>)
    requires Derived(base) && |taken| < 100
    ensures exists m :: 1 <= m <= |taken| + 2 && Answer(base, true, taken, draws) == Some(Probe(base, m))
  {
    FreeWithin(base, taken);
    var m := FirstFree(base, taken, 1);
    assert Answer(base, true, taken, draws) == Some(Probe(base, m));
  }

  /** Exactly when k + 1 probes are always enough: when the base is not a sixty-character slug
      ending in a number the walk itself would try. */
  lemma BoundIsExact(base: string)
    requires Derived(base)
    ensures !SelfCollides(base) <==> forall taken: set<string> :: FirstFree(base, taken, 1) <= |taken| + 1
  {
    forall taken: set<string> | !SelfCollides(base) ensures FirstFree(base, taken, 1) <= |taken| + 1 {
      FreeWithin(base, taken);
    }
    if n :| 2 <= n <= LAST_PROBE && CollidesAt(base, n) {
      var taken := ProbeSet(base, n);
      CountProbes(base, n);
      SkipsTaken(base, taken, n);
    }
  }

  lemma SkipsTaken(base: string, taken: set<string>, n: nat)
    requires 1 <= n <= LAST_PROBE && ProbeSet(base, n) <= taken
    ensures FirstFree(base, taken, 1) > n
  {
    assert forall k :: 1 <= k <= n ==> Probe(base, k) in ProbeSet(base, n);
  }

  /** For one: sixty characters ending in "-2", with only that address taken, take three probes. */
  lemma ThreeProbesForOne(base: string)
    requires base == seq(58, _ => 'a') + "-2"
    ensures Derived(base) && FirstFree(base, {base}, 1) == 3
  {
    assert Dec(2) == "2" && Suffix(2) == "-2";
    assert Take(base, 58) + "-2" == base;
    ProbesDiffer(base, 2, 3);
    assert FirstFree(base, {base}, 1) == FirstFree(base, {base}, 2) == FirstFree(base, {base}, 3);
  }
}
