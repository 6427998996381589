/** One-time password reset links (app/models/password_reset.py). Password digests and tokens are
    fresh numbers; issuing is one atomic step, under the issuing organization. */
module PasswordResets {
  import opened Access
  import opened Ordering
  import opened Wrappers

  const EXPIRY := 86400

  datatype Account = Account(stamp: nat, isActive: bool, platformAdmin: bool)
  datatype Member = Member(role: Role, isActive: bool)
  datatype Link = Link(org: nat, user: nat, token: nat, stamp: nat, expires: int, used: bool, issuer: Option<nat>)

  /** `next` is the next digest or token nobody has seen; `found` the links requests have read
      as valid and not yet redeemed; `changed` the links that have set a password. */
  datatype World = World(accounts: map<nat, Account>, members: map<(nat, nat), Member>, links: seq<Link>,
                         found: map<nat, nat>, changed: seq<nat>, now: int, next: nat)

  // ------------------------------------------------------------------ the rules

  predicate MemberHere(w: World, user: nat, org: nat) {
    (user, org) in w.members && w.members[(user, org)].isActive
  }

  predicate BelongsElsewhere(w: World, user: nat, org: nat) {
    exists m :: m in w.members && m.0 == user && m.1 != org
  }

  predicate CanBeResetByOrg(w: World, user: nat, org: nat) {
    && user in w.accounts && !w.accounts[user].platformAdmin && w.accounts[user].isActive
    && MemberHere(w, user, org) && !BelongsElsewhere(w, user, org)
  }

  /** Owners and admins may manage members. */
  predicate MayStillIssue(w: World, issuer: Option<nat>, org: nat) {
    issuer.Some? && MemberHere(w, issuer.value, org)
    && (w.members[(issuer.value, org)].role.Owner? || w.members[(issuer.value, org)].role.Admin?)
  }

  predicate Valid(w: World, l: Link) {
    && !l.used && w.now <= l.expires
    && CanBeResetByOrg(w, l.user, l.org)
    && l.stamp == w.accounts[l.user].stamp
    && MayStillIssue(w, l.issuer, l.org)
  }

  /** The link a token names in the organization in force. */
  function Named(links: seq<Link>, org: nat, token: nat): (r: Option<nat>)
    ensures r.Some? ==> r.value < |links| && links[r.value].token == token && links[r.value].org == org
    ensures r.None? ==> forall k :: 0 <= k < |links| ==> links[k].token != token || links[k].org != org
  {
    if links == [] then None
    else if links[|links| - 1].token == token && links[|links| - 1].org == org then Some(|links| - 1)
    else Named(links[..|links| - 1], org, token)
  }

  function FindValid(w: World, org: nat, token: nat): Option<nat> {
    var k := Named(w.links, org, token);
    if k.Some? && Valid(w, w.links[k.value]) then k else None
  }

  function Retire(l: Link, user: nat, org: nat): Link {
    if l.user == user && l.org == org then l.(used := true) else l
  }

  /** Every unused link the account has here, spent. */
  function Retired(links: seq<Link>, user: nat, org: nat): (r: seq<Link>)
    ensures |r| == |links|
    ensures forall k :: 0 <= k < |links| ==> r[k] == Retire(links[k], user, org)
  {
    if links == [] then []
    else
      var n := |links| - 1;
      Retired(links[..n], user, org) + [Retire(links[n], user, org)]
  }

  // ------------------------------------------------------------------ what can happen

  datatype Event =
    | Issue(issuer: nat, user: nat, org: nat)
    | Open(request: nat, org: nat, token: nat)      // a request reads a link as valid
    | Redeem(request: nat)                          // and, later, its transaction
    | ChangePassword(user: nat)                     // by any other route
    | SetAccount(user: nat, isActive: bool, platformAdmin: bool)
    | SetMember(user: nat, org: nat, member: Option<Member>)
    | Tick(now: int)

  function SetPassword(w: World, user: nat): World
    requires user in w.accounts
  {
    w.(accounts := w.accounts[user := w.accounts[user].(stamp := w.next)], next := w.next + 1)
  }

  function Issued(w: World, issuer: nat, user: nat, org: nat): World
    requires user in w.accounts
  {
    w.(links := Retired(w.links, user, org)
                + [Link(org, user, w.next, w.accounts[user].stamp, w.now + EXPIRY, false, Some(issuer))],
       next := w.next + 1)
  }

  /** The password is set and the link spent where it is still unspent; else neither. */
  function Redeemed(w: World, k: nat): World
    requires k < |w.links| && w.links[k].user in w.accounts
  {
    if w.links[k].used then w
    else SetPassword(w, w.links[k].user).(links := w.links[k := w.links[k].(used := true)], changed := w.changed + [k])
  }

  function Step(w: World, e: Event): World {
    match e
    case Issue(issuer, user, org) => if CanBeResetByOrg(w, user, org) then Issued(w, issuer, user, org) else w
    case Open(request, org, token) =>
      var k := FindValid(w, org, token);
      if k.Some? then w.(found := w.found[request := k.value]) else w
    case Redeem(request) =>
      if request in w.found && w.found[request] < |w.links| && w.links[w.found[request]].user in w.accounts
      then Redeemed(w, w.found[request]).(found := w.found - {request})
      else w
    case ChangePassword(user) => if user in w.accounts then SetPassword(w, user) else w
    case SetAccount(user, isActive, platformAdmin) =>
      if user in w.accounts
      then w.(accounts := w.accounts[user := w.accounts[user].(isActive := isActive, platformAdmin := platformAdmin)])
      else w.(accounts := w.accounts[user := Account(w.next, isActive, platformAdmin)], next := w.next + 1)
    case SetMember(user, org, member) =>
      w.(members := if member.Some? then w.members[(user, org) := member.value] else w.members - {(user, org)})
    case Tick(now) => if now >= w.now then w.(now := now) else w
  }

  function Run(w: World, events: seq<Event>): World
    decreases |events|
  {
    if events == [] then w else Run(Step(w, events[0]), events[1..])
  }

  // ------------------------------------------------------------------ the invariant

  ghost predicate OneUnspent(w: World) {
    forall j, k :: 0 <= j < k < |w.links| && w.links[j].user == w.links[k].user && w.links[j].org == w.links[k].org
                   ==> w.links[j].used || w.links[k].used
  }

  ghost predicate FreshTokens(w: World) {
    && (forall k :: 0 <= k < |w.links| ==> w.links[k].token < w.next && w.links[k].stamp < w.next)
    && (forall j, k :: 0 <= j < k < |w.links| ==> w.links[j].token != w.links[k].token)
    && (forall u :: u in w.accounts ==> w.accounts[u].stamp < w.next)
  }

  /** What set a password is spent, and is listed once. */
  ghost predicate SpentOnce(w: World) {
    Distinct(w.changed) && forall k :: k in w.changed ==> k < |w.links| && w.links[k].used
  }

  ghost predicate Inv(w: World) {
    OneUnspent(w) && FreshTokens(w) && SpentOnce(w)
  }

  /** An installation that has issued no link yet. */
  lemma NoLinksYet(w: World)
    requires w.links == [] && w.changed == [] && forall u :: u in w.accounts ==> w.accounts[u].stamp < w.next
    ensures Inv(w)
  {
  }

  lemma IssueKeepsInv(w: World, issuer: nat, user: nat, org: nat)
    requires Inv(w) && user in w.accounts
    ensures Inv(Issued(w, issuer, user, org))
  {
    var after := Issued(w, issuer, user, org);
    IssueKeepsOne(w, issuer, user, org);
    assert forall k :: k in w.changed ==> after.links[k].used;
  }

  lemma IssueKeepsOne(w: World, issuer: nat, user: nat, org: nat)
    requires OneUnspent(w) && user in w.accounts
    ensures OneUnspent(Issued(w, issuer, user, org))
  {
  }

  lemma RedeemKeepsInv(w: World, k: nat)
    requires Inv(w) && k < |w.links| && w.links[k].user in w.accounts
    ensures Inv(Redeemed(w, k))
  {
    if !w.links[k].used { assert k !in w.changed; }
  }

  /** A step that leaves the links and what they have changed alone. */
  lemma LinksAloneKeepInv(w: World, after: World)
    requires Inv(w) && after.links == w.links && after.changed == w.changed && after.next >= w.next
    requires forall u :: u in after.accounts ==> after.accounts[u].stamp < after.next
    ensures Inv(after)
  {
  }

  lemma StampsAreOld(w: World, e: Event)
    requires FreshTokens(w) && (e.ChangePassword? || e.SetAccount?)
    ensures forall u :: u in Step(w, e).accounts ==> Step(w, e).accounts[u].stamp < Step(w, e).next
  {
  }

  lemma StepKeepsInv(w: World, e: Event)
    requires Inv(w)
    ensures Inv(Step(w, e))
  {
    hide OneUnspent, SpentOnce, Issued, Redeemed, FindValid, CanBeResetByOrg;
    match e
    case Issue(issuer, user, org) =>
      if CanBeResetByOrg(w, user, org) {
        MayBeReset(w, user, org);
        IssueKeepsInv(w, issuer, user, org);
      }
    case Redeem(request) =>
      if request in w.found && w.found[request] < |w.links| && w.links[w.found[request]].user in w.accounts {
        RedeemKeepsInv(w, w.found[request]);
        LinksAloneKeepInv(Redeemed(w, w.found[request]), Step(w, e));
      }
    case ChangePassword(_) =>
      StampsAreOld(w, e);
      LinksAloneKeepInv(w, Step(w, e));
    case SetAccount(_, _, _) =>
      StampsAreOld(w, e);
      LinksAloneKeepInv(w, Step(w, e));
    case _ => LinksAloneKeepInv(w, Step(w, e));
  }

  lemma MayBeReset(w: World, user: nat, org: nat)
    requires CanBeResetByOrg(w, user, org)
    ensures user in w.accounts
  {
  }

  lemma {:induction false} RunKeepsInv(w: World, events: seq<Event>)
    requires Inv(w)
    ensures Inv(Run(w, events))
    decreases |events|
  {
    if events != [] {
      StepKeepsInv(w, events[0]);
      RunKeepsInv(Step(w, events[0]), events[1..]);
    }
  }

  // ------------------------------------------------------------------ what it buys

  /** At every moment at most one link is valid for an account, installation-wide: a valid one
      forces its organization to be the account's only one. */
  lemma AtMostOneValid(w: World, events: seq<Event>, j: nat, k: nat)
    requires Inv(w)
    requires var after := Run(w, events);
             && j < |after.links| && k < |after.links| && after.links[j].user == after.links[k].user
             && Valid(after, after.links[j]) && Valid(after, after.links[k])
    ensures j == k
  {
    RunKeepsInv(w, events);
    var after := Run(w, events);
    var a, b := after.links[j], after.links[k];
    assert (a.user, a.org) in after.members && (b.user, b.org) in after.members;
    assert !BelongsElsewhere(after, a.user, a.org);
  }

  /** Under any interleaving of requests a link sets a password at most once. */
  lemma SetsAtMostOnce(w: World, events: seq<Event>)
    requires Inv(w)
    ensures Distinct(Run(w, events).changed)
  {
    RunKeepsInv(w, events);
  }

  /** A link made for a password the account no longer has. */
  ghost predicate Behind(w: World, k: nat) {
    k < |w.links| && w.links[k].user in w.accounts && w.links[k].stamp < w.accounts[w.links[k].user].stamp < w.next
  }

  lemma StepKeepsBehind(w: World, e: Event, k: nat)
    requires Inv(w) && Behind(w, k)
    ensures Behind(Step(w, e), k)
  {
  }

  lemma {:induction false} RunKeepsBehind(w: World, events: seq<Event>, k: nat)
    requires Inv(w) && Behind(w, k)
    ensures Behind(Run(w, events), k)
    decreases |events|
  {
    if events != [] {
      StepKeepsInv(w, events[0]);
      StepKeepsBehind(w, events[0], k);
      RunKeepsBehind(Step(w, events[0]), events[1..], k);
    }
  }

  /** The step gives the account a new password: a member choosing one, the operator at a shell,
      or a link redeemed. */
  predicate Changes(w: World, e: Event, user: nat) {
    user in w.accounts && user in Step(w, e).accounts && Step(w, e).accounts[user].stamp != w.accounts[user].stamp
  }

  lemma ChangeLeavesBehind(w: World, e: Event, user: nat, k: nat)
    requires Inv(w) && Changes(w, e, user) && k < |w.links| && w.links[k].user == user
    ensures Inv(Step(w, e)) && Behind(Step(w, e), k)
  {
    StepKeepsInv(w, e);
  }

  /** Any change of an account's password, by whatever route, ends every link made before it for
      good: none is ever read as valid again. */
  lemma ChangeEndsEarlierLinks(w: World, e: Event, user: nat, events: seq<Event>, k: nat)
    requires Inv(w) && Changes(w, e, user) && k < |w.links| && w.links[k].user == user
    ensures var after := Run(Step(w, e), events); k < |after.links| && !Valid(after, after.links[k])
  {
    ChangeLeavesBehind(w, e, user, k);
    RunKeepsBehind(Step(w, e), events, k);
  }

  /** Some request has read the link as valid and not yet come to its transaction. */
  ghost predicate Found(w: World, k: nat) {
    exists request :: request in w.found && w.found[request] == k
  }

  /** A link of an old password that nobody holds, or that is spent, stays out of reach. */
  lemma StepKeepsOut(w: World, e: Event, k: nat)
    requires Inv(w) && Behind(w, k) && k !in w.changed && (w.links[k].used || !Found(w, k))
    ensures var after := Step(w, e);
            Behind(after, k) && k !in after.changed && (after.links[k].used || !Found(after, k))
  {
    StepKeepsBehind(w, e, k);
    var after := Step(w, e);
    if !w.links[k].used {
      forall request | request in after.found && after.found[request] == k
        ensures request in w.found && w.found[request] == k
      {
      }
    }
  }

  lemma {:induction false} RunKeepsOut(w: World, events: seq<Event>, k: nat)
    requires Inv(w) && Behind(w, k) && k !in w.changed && (w.links[k].used || !Found(w, k))
    ensures k !in Run(w, events).changed
    decreases |events|
  {
    if events != [] {
      StepKeepsInv(w, events[0]);
      StepKeepsOut(w, events[0], k);
      RunKeepsOut(Step(w, events[0]), events[1..], k);
    }
  }

  /** Which earlier links can still set a password after a change: exactly the unspent ones a
      request had already found. No run of anything makes another one do it. */
  lemma LateRedeemExactly(w: World, e: Event, user: nat, k: nat)
    requires Inv(w) && Changes(w, e, user) && k < |w.links| && w.links[k].user == user
    requires k !in Step(w, e).changed
    ensures var after := Step(w, e);
            && k < |after.links|
            && ((exists events :: k in Run(after, events).changed) <==> Found(after, k) && !after.links[k].used)
  {
    ChangeLeavesBehind(w, e, user, k);
    var after := Step(w, e);
    if Found(after, k) && !after.links[k].used {
      var request :| request in after.found && after.found[request] == k;
      RedeemOne(after, request, k);
    } else {
      forall events ensures k !in Run(after, events).changed { RunKeepsOut(after, events, k); }
    }
  }

  lemma RedeemOne(w: World, request: nat, k: nat)
    requires request in w.found && w.found[request] == k && k < |w.links|
             && w.links[k].user in w.accounts && !w.links[k].used
    ensures Run(w, [Redeem(request)]).changed == w.changed + [k]
  {
    assert [Redeem(request)][1..] == [];
  }

  /** Organization 0 with an admin, account 1, and a member, account 2. */
  function TwoMembers(): World {
    World(map[1 := Account(0, true, false), 2 := Account(1, true, false)],
          map[(1, 0) := Member.Member(Role.Admin, true), (2, 0) := Member.Member(Role.Member, true)],
          [], map[], [], 0, 2)
  }

  /** A run in which it happens: the link is issued and found, the member chooses a password, and
      the request that found the link then sets another. */
  lemma LateRedeemHappens()
    ensures var before := Run(TwoMembers(), [Issue(1, 2, 0), Open(7, 0, 2)]);
            && Changes(before, ChangePassword(2), 2) && Found(before, 0)
            && Step(before, ChangePassword(2)).changed == []
            && Run(Step(before, ChangePassword(2)), [Redeem(7)]).changed == [0]
  {
    var w1 := Step(TwoMembers(), Issue(1, 2, 0));
    assert [Issue(1, 2, 0), Open(7, 0, 2)][1..] == [Open(7, 0, 2)] && [Open(7, 0, 2)][1..] == [];
    assert w1.links == [Link(0, 2, 2, 1, EXPIRY, false, Some(1))];
    assert w1.links[..0] == [];
    assert FindValid(w1, 0, 2) == Some(0);
    var w2 := Step(w1, Open(7, 0, 2));
    assert Run(TwoMembers(), [Issue(1, 2, 0), Open(7, 0, 2)]) == w2;
    assert 7 in w2.found && w2.found[7] == 0;
    RedeemOne(Step(w2, ChangePassword(2)), 7, 0);
  }

  // ------------------------------------------------------------------ what a link opens, and how long

  /** An account an organization may reset: in use, running no installation, an active member here and
      a member of no other organization, in whatever state that membership is. */
  ghost predicate Resettable(w: World, user: nat, org: nat) {
    && user in w.accounts && w.accounts[user].isActive && !w.accounts[user].platformAdmin
    && (user, org) in w.members && w.members[(user, org)].isActive
    && forall other :: (user, other) in w.members ==> other == org
  }

  /** Still an active owner or admin here. */
  ghost predicate MayManage(w: World, issuer: nat, org: nat) {
    (issuer, org) in w.members && w.members[(issuer, org)].isActive && w.members[(issuer, org)].role in {Owner, Admin}
  }

  lemma ResettableIs(w: World, user: nat, org: nat)
    ensures CanBeResetByOrg(w, user, org) <==> Resettable(w, user, org)
  {
    if !BelongsElsewhere(w, user, org) {
      forall other | (user, other) in w.members ensures other == org {
        assert (user, other).0 == user;
      }
    }
  }

  /** Which token opens which link, in full. */
  lemma FindsExactly(w: World, org: nat, token: nat, k: nat)
    requires Inv(w) && k < |w.links|
    ensures FindValid(w, org, token) == Some(k) <==>
            var l := w.links[k];
            && l.token == token && l.org == org
            && !l.used && w.now <= l.expires && Resettable(w, l.user, org)
            && w.accounts[l.user].stamp == l.stamp
            && l.issuer.Some? && MayManage(w, l.issuer.value, org)
  {
    ResettableIs(w, w.links[k].user, w.links[k].org);
    NamedIs(w.links, org, token, k);
  }

  lemma NamedIs(links: seq<Link>, org: nat, token: nat, k: nat)
    requires k < |links| && forall i, j :: 0 <= i < j < |links| ==> links[i].token != links[j].token
    ensures Named(links, org, token) == Some(k) <==> links[k].token == token && links[k].org == org
  {
  }

  /** Issuing spends the account's outstanding links here and touches no other link. */
  lemma IssueSpendsOnly(w: World, issuer: nat, user: nat, org: nat, k: nat)
    requires k < |w.links|
    ensures var after := Step(w, Issue(issuer, user, org));
            && k < |after.links|
            && after.links[k] == (if Resettable(w, user, org) && w.links[k].user == user && w.links[k].org == org
                                  then w.links[k].(used := true) else w.links[k])
            && after.accounts == w.accounts && after.members == w.members && after.found == w.found
  {
    ResettableIs(w, user, org);
  }

  /** Redeeming an unspent link gives its account a password nobody had, and touches no other account
      and no other link; a spent one does nothing. */
  lemma RedeemSetsOnly(w: World, request: nat, k: nat, user: nat, j: nat)
    requires FreshTokens(w) && request in w.found && w.found[request] == k && k < |w.links|
    requires w.links[k].user in w.accounts && user in w.accounts && j < |w.links|
    ensures var after := Step(w, Redeem(request));
            && user in after.accounts && j < |after.links|
            && (!w.links[k].used && user == w.links[k].user ==>
                  && Changes(w, Redeem(request), user)
                  && (forall u :: u in w.accounts ==> after.accounts[user].stamp != w.accounts[u].stamp)
                  && forall l :: l in w.links ==> l.stamp != after.accounts[user].stamp)
            && (w.links[k].used || user != w.links[k].user ==> after.accounts[user] == w.accounts[user])
            && (!w.links[k].used && j == k ==> after.links[j].used && k in after.changed)
            && (w.links[k].used || j != k ==> after.links[j] == w.links[j])
  {
  }

  /** Taking somebody's way in away takes it away at once: an account switched off or made to run the
      installation, its membership here ended or suspended, another one begun, or the issuer ended,
      suspended or demoted, and no link it concerns is valid any more. */
  lemma TakenAwayAtOnce(w: World, k: nat, isActive: bool, platformAdmin: bool, org: nat, member: Option<Member>)
    requires k < |w.links|
    ensures var l, after := w.links[k], Step(w, SetAccount(w.links[k].user, isActive, platformAdmin));
            !isActive || platformAdmin ==> k < |after.links| && !Valid(after, after.links[k])
    ensures var l, after := w.links[k], Step(w, SetMember(w.links[k].user, org, member));
            && k < |after.links|
            && (org == l.org && (member.None? || !member.value.isActive) ==> !Valid(after, after.links[k]))
            && (org != l.org && member.Some? ==> !Valid(after, after.links[k]))
    ensures w.links[k].issuer.Some? ==>
              var l, after := w.links[k], Step(w, SetMember(w.links[k].issuer.value, w.links[k].org, member));
              member.None? || !member.value.isActive || (member.value.role != Owner && member.value.role != Admin) ==>
                k < |after.links| && !Valid(after, after.links[k])
  {
    var l := w.links[k];
    assert (l.user, org).0 == l.user && (l.user, org).1 == org;
    assert org != l.org && member.Some? ==> (l.user, org) in Step(w, SetMember(l.user, org, member)).members;
  }

  /** What happens elsewhere, or before a day is over: time up to `until`, links opened, links issued
      to other accounts. */
  predicate Elsewhere(e: Event, user: nat, until: int) {
    match e
    case Tick(now) => now <= until
    case Open(_, _, _) => true
    case Issue(_, other, _) => other != user
    case _ => false
  }

  /** The k-th link is what this issuing made, and everything it rests on still holds. */
  ghost predicate Standing(w: World, k: nat, l: Link) {
    && Inv(w) && k < |w.links| && w.links[k] == l && !l.used && w.now <= l.expires
    && Resettable(w, l.user, l.org) && w.accounts[l.user].stamp == l.stamp
    && l.issuer.Some? && MayManage(w, l.issuer.value, l.org)
  }

  lemma StandsThrough(w: World, e: Event, k: nat, l: Link)
    requires Standing(w, k, l) && Elsewhere(e, l.user, l.expires)
    ensures Standing(Step(w, e), k, l)
  {
    StepKeepsInv(w, e);
    if e.Issue? { IssueSpendsOnly(w, e.issuer, e.user, e.org, k); }
  }

  lemma {:induction false} StandsThroughRun(w: World, events: seq<Event>, k: nat, l: Link)
    requires Standing(w, k, l) && forall e :: e in events ==> Elsewhere(e, l.user, l.expires)
    ensures Standing(Run(w, events), k, l)
    decreases |events|
  {
    if events != [] {
      StandsThrough(w, events[0], k, l);
      StandsThroughRun(Step(w, events[0]), events[1..], k, l);
    }
  }

  /** A link works for the day it is given: issued by somebody who may, its token opens it through
      any run of other people's business until twenty-four hours are over. */
  lemma LinkWorksForADay(w: World, issuer: nat, user: nat, org: nat, events: seq<Event>)
    requires Inv(w) && Resettable(w, user, org) && MayManage(w, issuer, org)
    requires forall e :: e in events ==> Elsewhere(e, user, w.now + 24 * 60 * 60)
    ensures FindValid(Run(Step(w, Issue(issuer, user, org)), events), org, w.next) == Some(|w.links|)
  {
    var k, after := |w.links|, Step(w, Issue(issuer, user, org));
    ResettableIs(w, user, org);
    StepKeepsInv(w, Issue(issuer, user, org));
    assert after.links[k].expires == w.now + 24 * 60 * 60;
    StandsThroughRun(after, events, k, after.links[k]);
    FindsExactly(Run(after, events), org, w.next, k);
  }

  lemma {:induction false} LinkKeepsItsTerm(w: World, events: seq<Event>, k: nat)
    requires k < |w.links|
    ensures var after := Run(w, events);
            k < |after.links| && after.links[k].(used := w.links[k].used) == w.links[k] && after.now >= w.now
            && (w.links[k].used ==> after.links[k].used)
    decreases |events|
  {
    if events != [] { LinkKeepsItsTerm(Step(w, events[0]), events[1..], k); }
  }

  /** And not longer: once the clock of a run has passed its day no later state of it reads the link
      as valid, nor once it is spent. */
  lemma SpentOrLateIsOver(w: World, events: seq<Event>, k: nat)
    requires k < |w.links| && (w.links[k].used || w.now > w.links[k].expires)
    ensures var after := Run(w, events); k < |after.links| && !Valid(after, after.links[k])
  {
    LinkKeepsItsTerm(w, events, k);
  }

  /** So a link ends with its day: whatever happens before its twenty-four hours are over and whatever
      after, from the tick that passes them on it is never valid. */
  lemma LinkEndsWithItsDay(w: World, issuer: nat, user: nat, org: nat, before: seq<Event>, late: int, rest: seq<Event>)
    requires Resettable(w, user, org) && late > w.now + 24 * 60 * 60
    requires Run(Step(w, Issue(issuer, user, org)), before).now <= late
    ensures var k, after := |w.links|, Run(Step(Run(Step(w, Issue(issuer, user, org)), before), Tick(late)), rest);
            k < |after.links| && !Valid(after, after.links[k])
  {
    var k, issued := |w.links|, Step(w, Issue(issuer, user, org));
    ResettableIs(w, user, org);
    assert issued.links[k].expires == w.now + 24 * 60 * 60;
    LinkKeepsItsTerm(issued, before, k);
    SpentOrLateIsOver(Step(Run(issued, before), Tick(late)), rest, k);
  }

  /** From an installation that has issued no link yet every run keeps all of this. */
  lemma FromTheStart(w: World, events: seq<Event>)
    requires w.links == [] && w.changed == [] && forall u :: u in w.accounts ==> w.accounts[u].stamp < w.next
    ensures var after := Run(w, events);
            && Inv(after) && Distinct(after.changed)
            && forall j: nat, k: nat :: j < k < |after.links| && after.links[j].user == after.links[k].user
                                        ==> !Valid(after, after.links[j]) || !Valid(after, after.links[k])
  {
    NoLinksYet(w);
    RunKeepsInv(w, events);
    var after := Run(w, events);
    forall j: nat, k: nat | j < k < |after.links| && after.links[j].user == after.links[k].user
      ensures !Valid(after, after.links[j]) || !Valid(after, after.links[k])
    {
      if Valid(after, after.links[j]) && Valid(after, after.links[k]) { AtMostOneValid(w, events, j, k); }
    }
  }

  class Resets {
    var w: World

    method RetireOutstanding(user: nat, org: nat)
      modifies this
      ensures w == old(w).(links := Retired(old(w).links, user, org))
    {
      var links, k := w.links, 0;
      while k < |links|
        invariant 0 <= k <= |links| == |w.links|
        invariant forall i :: 0 <= i < k ==> links[i] == Retire(w.links[i], user, org)
        invariant forall i :: k <= i < |links| ==> links[i] == w.links[i]
      {
        if links[k].user == user && links[k].org == org && !links[k].used {
          links := links[k := links[k].(used := true)];
        }
        k := k + 1;
      }
      assert links == Retired(w.links, user, org);
      w := w.(links := links);
    }

    /** The token of the new link, or None where the account is not this organization's to reset. */
    method IssueLink(issuer: nat, user: nat, org: nat) returns (token: Option<nat>)
      modifies this
      ensures w == Step(old(w), Issue(issuer, user, org))
      ensures token == if CanBeResetByOrg(old(w), user, org) then Some(old(w).next) else None
    {
      if !CanBeResetByOrg(w, user, org) {
        return None;
      }
      token := Some(w.next);
      var reset := Link(org, user, w.next, w.accounts[user].stamp, w.now + EXPIRY, false, Some(issuer));
      RetireOutstanding(user, org);
      w := w.(links := w.links + [reset], next := w.next + 1);
    }

    /** One transaction: the password first, then the link, spent on condition; rolled back where
        the condition changed no row. */
    method RedeemLink(k: nat) returns (done: bool)
      requires k < |w.links| && w.links[k].user in w.accounts
      modifies this
      ensures w == Redeemed(old(w), k) && done == !old(w).links[k].used
    {
      var before := w;
      w := SetPassword(w, w.links[k].user);
      done := !w.links[k].used;
      if done {
        w := w.(links := w.links[k := w.links[k].(used := true)], changed := w.changed + [k]);
      } else {
        w := before;
      }
    }
  }
}
