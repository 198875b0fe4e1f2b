/** Model of the discovery walk in nvme-cli/fabrics.c.

`__discover` reads the discovery log of a controller, connects to the controllers it names,
recurses into those that are discovery controllers themselves and disconnects the ones it is
not supposed to keep. Log pages may name each other in cycles; the only protection is the
test whether a controller is connected right now. The calls into libnvme are operations of
the host whose outcomes are arbitrary; a ghost trace records them.
*/
module Discovery {
  import opened Common

  /** What identifies a controller to `lookup_ctrl`; the host address and interface are the
      same for the whole walk. */
  datatype Key = Key(transport: string, traddr: string, trsvcid: string, subsysnqn: string)

  /** An entry of a discovery log page. */
  datatype Entry = Entry(trtype: string, traddr: string, trsvcid: string, subnqn: string, subtype: nat, eflags: bv16)

  const NVME_NQN_DISC := 1
  const NVME_NQN_CURR := 3
  const NVMF_DISC_EFLAGS_DUPRETINFO: bv16 := 1
  const NVMF_DISC_EFLAGS_EPCSD: bv16 := 2
  const NVME_DISC_SUBSYS_NAME := "nqn.2014-08.org.nvmexpress.discovery"
  const NVMF_DEF_DISC_TMO := 30

  function KeyOf(e: Entry): Key {
    Key(e.trtype, e.traddr, e.trsvcid, e.subnqn)
  }

  predicate IsDiscovery(e: Entry) {
    e.subtype == NVME_NQN_DISC || e.subtype == NVME_NQN_CURR
  }

  /** The entry announces a discovery controller with the same information. */
  predicate SameInformation(e: Entry) {
    IsDiscovery(e) && e.eflags & NVMF_DISC_EFLAGS_DUPRETINFO != 0
  }

  /** A controller found at c is worth a connection: same transport, new information. */
  predicate Eligible(c: Key, e: Entry) {
    c.transport == e.trtype && !SameInformation(e)
  }

  /** The keep rule: I/O controllers stay, discovery controllers with a name of their own
      stay if they support explicit persistent connections, the others if the caller
      asked for persistence. */
  predicate Keep(e: Entry, persistent: bool) {
    if !IsDiscovery(e) then true
    else if e.subnqn != NVME_DISC_SUBSYS_NAME then e.eflags & NVMF_DISC_EFLAGS_EPCSD != 0
    else persistent
  }

  /** The keep-alive timeout that `set_discovery_kato` chooses. */
  function DiscoveryKato(persistentOption: bool, tmo: int): int {
    if persistentOption && tmo == 0 then NVMF_DEF_DISC_TMO
    else if !persistentOption && tmo > 0 then 0
    else tmo
  }

  // ---------------------------------------------------------------- traces

  datatype Event =
    | Read(c: Key, log: Option<seq<Entry>>)
    | Attempt(e: Entry, kato: int, ok: bool, discover: bool)
    | Add(k: Key, addKato: int, added: bool)
    | Disconnect(k: Key)
    | Identified(k: Key, name: Option<string>)

  ghost predicate Attempted(t: seq<Event>, k: Key) {
    exists ev :: ev in t && ev.Attempt? && KeyOf(ev.e) == k
  }

  ghost predicate WasRead(t: seq<Event>, k: Key) {
    exists ev :: ev in t && ev.Read? && ev.c == k
  }

  /** The walk connected k and the keep rule retains it. */
  ghost predicate KeptByWalk(t: seq<Event>, k: Key, persistent: bool) {
    exists ev :: ev in t && ev.Attempt? && ev.ok && KeyOf(ev.e) == k && Keep(ev.e, persistent)
  }

  /** A controller was added to the host. */
  ghost predicate Added(t: seq<Event>) {
    exists ev :: ev in t && ev.Add? && ev.added
  }

  /** What the walk knows all along: the option and the caller's timeout. */
  datatype Config = Config(persistentOption: bool, persistent: bool, tmo: int)

  function KatoFor(e: Entry, cfg: Config): int {
    if IsDiscovery(e) then DiscoveryKato(cfg.persistentOption, cfg.tmo) else cfg.tmo
  }

  /** The set of connected controllers after the events, starting from c. */
  function Replay(c: set<Key>, t: seq<Event>): set<Key> {
    if t == [] then c else After(Replay(c, t[..|t| - 1]), t[|t| - 1])
  }

  function After(c: set<Key>, ev: Event): set<Key> {
    match ev
    case Read(_, _) => c
    case Attempt(e, _, ok, _) => if ok then c + {KeyOf(e)} else c
    case Add(k, _, added) => if added then c + {k} else c
    case Disconnect(k) => c - {k}
    case Identified(_, _) => c
  }

  /** A controller is attempted only while it is not connected. */
  ghost predicate AttemptsAreNew(c: set<Key>, t: seq<Event>) {
    forall i :: 0 <= i < |t| ==> NewTo(Replay(c, t[..i]), t[i])
  }

  ghost predicate NewTo(c: set<Key>, ev: Event) {
    ev.Attempt? ==> KeyOf(ev.e) !in c
  }

  /** Every eligible entry of every log read was attempted, or connected from the start. */
  ghost predicate NothingOverlooked(c: set<Key>, t: seq<Event>) {
    forall ev, e :: ev in t && ev.Read? && ev.log.Some? && e in ev.log.value && Eligible(ev.c, e) ==>
      KeyOf(e) in c || Attempted(t, KeyOf(e))
  }

  /** Every controller reported as a discovery controller was asked for its log. */
  ghost predicate Followed(t: seq<Event>) {
    forall ev :: ev in t && ev.Attempt? && ev.ok && ev.discover ==> WasRead(t, KeyOf(ev.e))
  }

  /** No controller that was connected at the start is disconnected on the way. */
  ghost predicate SparesOthers(c: set<Key>, t: seq<Event>) {
    forall ev :: ev in t && ev.Disconnect? ==> ev.k !in c
  }

  /** The controllers that stay connected: I/O controllers, discovery controllers under the
      well-known name if the caller asks for it, and those with a name of their own that
      support explicit persistent connections. */
  predicate Retained(e: Entry, persistent: bool) {
    || (e.subtype != 1 && e.subtype != 3)
    || (e.subnqn == "nqn.2014-08.org.nvmexpress.discovery" && persistent)
    || (e.subnqn != "nqn.2014-08.org.nvmexpress.discovery" && e.eflags & 2 != 0)
  }

  /** All of them that were connected on the way are connected at the end. */
  ghost predicate RetainedStay(t: seq<Event>, d: set<Key>, persistent: bool) {
    forall ev :: ev in t && ev.Attempt? && ev.ok && Retained(ev.e, persistent) ==> KeyOf(ev.e) in d
  }

  ghost predicate KatosRight(t: seq<Event>, cfg: Config) {
    forall ev :: ev in t && ev.Attempt? ==> ev.kato == KatoFor(ev.e, cfg)
  }

  /** A stretch of the walk from the connected set c to the connected set d. */
  ghost predicate Walk(c: set<Key>, t: seq<Event>, d: set<Key>, cfg: Config) {
    && c <= d
    && (forall k :: k in d && k !in c ==> KeptByWalk(t, k, cfg.persistent))
    && d == Replay(c, t)
    && AttemptsAreNew(c, t)
    && NothingOverlooked(c, t)
    && Followed(t)
    && SparesOthers(c, t)
    && KatosRight(t, cfg)
    && RetainedStay(t, d, cfg.persistent)
  }

  /** An entry of the log of c that asks for a connection: same transport, and no discovery
      controller that announces the same information. */
  predicate Worth(c: Key, e: Entry) {
    c.transport == e.trtype && !((e.subtype == 1 || e.subtype == 3) && e.eflags & 1 != 0)
  }

  /** The entry stands in a log that was read, and is worth a connection there. */
  ghost predicate FromLog(t: seq<Event>, e: Entry) {
    exists r :: r in t && r.Read? && r.log.Some? && e in r.log.value && Worth(r.c, e)
  }

  /** The controller was connected and said to be a discovery controller. */
  ghost predicate Announced(t: seq<Event>, k: Key) {
    exists a :: a in t && a.Attempt? && a.ok && a.discover && KeyOf(a.e) == k
  }

  /** Nothing happens without a cause: attempts come from logs that were read, or from the
      given log of c, and logs are read of controllers that were announced. */
  ghost predicate Caused(t: seq<Event>, c: Key, log: seq<Entry>) {
    && (forall ev :: ev in t && ev.Attempt? ==> (ev.e in log && Worth(c, ev.e)) || FromLog(t, ev.e))
    && (forall ev :: ev in t && ev.Read? ==> Announced(t, ev.c))
  }

  /** The same for a run that starts with the log of c. */
  ghost predicate Started(t: seq<Event>, c: Key) {
    && (forall ev :: ev in t && ev.Attempt? ==> FromLog(t, ev.e))
    && (forall ev :: ev in t && ev.Read? ==> ev.c == c || Announced(t, ev.c))
  }

  // ---------------------------------------------------------------- traces compose

  lemma KeepRetains(e: Entry, persistent: bool)
    ensures Keep(e, persistent) == Retained(e, persistent)
  {}

  lemma CausesStay(t: seq<Event>, w: seq<Event>, e: Entry, k: Key)
    requires forall ev :: ev in t ==> ev in w
    ensures FromLog(t, e) ==> FromLog(w, e)
    ensures Announced(t, k) ==> Announced(w, k)
  {
    hide Worth;
    if FromLog(t, e) {
      var r :| r in t && r.Read? && r.log.Some? && e in r.log.value && Worth(r.c, e);
      assert r in w;
    }
    if Announced(t, k) {
      var a :| a in t && a.Attempt? && a.ok && a.discover && KeyOf(a.e) == k;
      assert a in w;
    }
  }

  lemma CausedNothing(c: Key, log: seq<Entry>)
    ensures Caused([], c, log)
  {}

  lemma CausedThen(t: seq<Event>, u: seq<Event>, c: Key, log: seq<Entry>, e: Entry)
    requires Caused(t, c, log) && Caused(u, c, [e]) && e in log
    ensures Caused(t + u, c, log)
  {
    hide FromLog, Announced, Worth;
    var w := t + u;
    forall ev | ev in w && ev.Attempt? ensures (ev.e in log && Worth(c, ev.e)) || FromLog(w, ev.e) {
      CausesStay(t, w, ev.e, c);
      CausesStay(u, w, ev.e, c);
      assert ev in t || ev in u;
    }
    forall ev | ev in w && ev.Read? ensures Announced(w, ev.c) {
      CausesStay(t, w, e, ev.c);
      CausesStay(u, w, e, ev.c);
      assert ev in t || ev in u;
    }
  }

  lemma CausedRefused(c: Key, e: Entry, kato: int, discover: bool)
    requires Worth(c, e)
    ensures Caused([Attempt(e, kato, false, discover)], c, [e])
  {}

  /** An attempt of an entry, the run below it, and perhaps the disconnect. */
  lemma CausedChild(c: Key, e: Entry, discover: bool, u: seq<Event>, rest: seq<Event>, cfg: Config)
    requires Worth(c, e) && (if discover then Started(u, KeyOf(e)) else u == [])
    requires forall ev :: ev in rest ==> ev.Disconnect?
    ensures Caused([Success(e, discover, cfg)] + u + rest, c, [e])
  {
    hide FromLog, Worth, KatoFor, Announced;
    var s := Success(e, discover, cfg);
    var w := [s] + u + rest;
    assert s in w && forall ev :: ev in w ==> ev == s || ev in u || ev in rest;
    forall ev | ev in w && ev.Attempt? ensures (ev.e in [e] && Worth(c, ev.e)) || FromLog(w, ev.e) {
      CausesStay(u, w, ev.e, c);
    }
    forall ev | ev in w && ev.Read? ensures Announced(w, ev.c) {
      CausesStay(u, w, e, ev.c);
      AnnouncedBy(w, s);
    }
  }

  lemma AnnouncedBy(w: seq<Event>, a: Event)
    requires a in w && a.Attempt?
    ensures a.ok && a.discover ==> Announced(w, KeyOf(a.e))
  {}

  lemma StartedRead(c: Key, log: seq<Entry>, u: seq<Event>)
    requires Caused(u, c, log)
    ensures Started([Read(c, Some(log))] + u, c)
  {
    hide Worth, Announced;
    var r := Read(c, Some(log));
    var w := [r] + u;
    assert r in w && forall ev :: ev in w ==> ev == r || ev in u;
    forall ev | ev in w && ev.Attempt? ensures FromLog(w, ev.e) {
      CausesStay(u, w, ev.e, c);
    }
    forall ev | ev in w && ev.Read? ensures ev.c == c || Announced(w, ev.c) {
      if ev in u {
        var e: Entry := *;
        CausesStay(u, w, e, ev.c);
      }
    }
  }

  lemma StartedOnly(c: Key, log: Option<seq<Entry>>)
    ensures Started([Read(c, log)], c)
  {}

  /** Events around a run that attempt and read nothing do not matter. */
  lemma StartedWithin(t: seq<Event>, u: seq<Event>, rest: seq<Event>, c: Key)
    requires Started(u, c)
    requires forall ev :: ev in t || ev in rest ==> !ev.Attempt? && !ev.Read?
    ensures Started(t + u + rest, c)
  {
    hide FromLog, Announced;
    var w := t + u + rest;
    assert forall ev :: ev in w ==> ev in t || ev in u || ev in rest;
    forall ev | ev in w && ev.Attempt? ensures FromLog(w, ev.e) { CausesStay(u, w, ev.e, c); }
    forall ev | ev in w && ev.Read? ensures ev.c == c || Announced(w, ev.c) {
      var e: Entry := *;
      CausesStay(u, w, e, ev.c);
    }
  }

  /** A controller of the start set stays connected throughout, so it is never attempted. */
  lemma {:induction false} StaysThroughout(c: set<Key>, t: seq<Event>, i: nat, k: Key)
    requires k in c && SparesOthers(c, t) && i <= |t|
    ensures k in Replay(c, t[..i])
  {
    if i > 0 {
      StaysThroughout(c, t, i - 1, k);
      assert t[..i][..i - 1] == t[..i - 1] && t[i - 1] in t;
    } else {
      assert t[..0] == [];
    }
  }

  lemma NeverAttempted(c: set<Key>, t: seq<Event>, k: Key)
    requires k in c && AttemptsAreNew(c, t) && SparesOthers(c, t)
    ensures forall ev :: ev in t && ev.Attempt? ==> KeyOf(ev.e) != k
  {
    hide Replay, SparesOthers;
    forall ev | ev in t && ev.Attempt? ensures KeyOf(ev.e) != k {
      var i :| 0 <= i < |t| && t[i] == ev;
      StaysThroughout(c, t, i, k);
      assert NewTo(Replay(c, t[..i]), t[i]);
    }
  }

  lemma {:induction false} ReplayConcat(c: set<Key>, t: seq<Event>, u: seq<Event>)
    ensures Replay(c, t + u) == Replay(Replay(c, t), u)
    decreases |u|
  {
    if u == [] {
      assert t + u == t;
    } else {
      assert (t + u)[..|t + u| - 1] == t + u[..|u| - 1];
      ReplayConcat(c, t, u[..|u| - 1]);
    }
  }

  lemma AttemptedConcat(t: seq<Event>, u: seq<Event>, k: Key)
    ensures Attempted(t, k) || Attempted(u, k) ==> Attempted(t + u, k)
    ensures WasRead(t, k) || WasRead(u, k) ==> WasRead(t + u, k)
  {
    if Attempted(t, k) {
      var ev :| ev in t && ev.Attempt? && KeyOf(ev.e) == k;
      assert ev in t + u;
    } else if Attempted(u, k) {
      var ev :| ev in u && ev.Attempt? && KeyOf(ev.e) == k;
      assert ev in t + u;
    }
    if WasRead(t, k) {
      var ev :| ev in t && ev.Read? && ev.c == k;
      assert ev in t + u;
    } else if WasRead(u, k) {
      var ev :| ev in u && ev.Read? && ev.c == k;
      assert ev in t + u;
    }
  }

  lemma KeptConcat(t: seq<Event>, u: seq<Event>, k: Key, p: bool)
    ensures KeptByWalk(t, k, p) || KeptByWalk(u, k, p) ==> KeptByWalk(t + u, k, p)
    ensures KeptByWalk(t, k, p) ==> Attempted(t, k)
  {
    hide Keep;
    if KeptByWalk(t, k, p) {
      var ev :| ev in t && ev.Attempt? && ev.ok && KeyOf(ev.e) == k && Keep(ev.e, p);
      assert ev in t + u;
    } else if KeptByWalk(u, k, p) {
      var ev :| ev in u && ev.Attempt? && ev.ok && KeyOf(ev.e) == k && Keep(ev.e, p);
      assert ev in t + u;
    }
  }

  lemma NewConcat(c: set<Key>, t: seq<Event>, u: seq<Event>)
    requires AttemptsAreNew(c, t) && AttemptsAreNew(Replay(c, t), u)
    ensures AttemptsAreNew(c, t + u)
  {
    hide Replay, NewTo;
    var w := t + u;
    forall i | 0 <= i < |w| ensures NewTo(Replay(c, w[..i]), w[i]) {
      if i < |t| {
        assert w[i] == t[i] && w[..i] == t[..i];
      } else {
        var j := i - |t|;
        assert w[i] == u[j] && w[..i] == t + u[..j];
        ReplayConcat(c, t, u[..j]);
      }
    }
  }

  lemma NothingOverlookedConcat(c: set<Key>, t: seq<Event>, d: set<Key>, u: seq<Event>)
    requires NothingOverlooked(c, t) && NothingOverlooked(d, u)
    requires forall k :: k in d && k !in c ==> Attempted(t, k)
    ensures NothingOverlooked(c, t + u)
  {
    hide Eligible, Attempted;
    var w := t + u;
    forall ev, e | ev in w && ev.Read? && ev.log.Some? && e in ev.log.value && Eligible(ev.c, e)
      ensures KeyOf(e) in c || Attempted(w, KeyOf(e))
    {
      AttemptedConcat(t, u, KeyOf(e));
      assert ev in t || ev in u;
    }
  }

  lemma FollowedConcat(t: seq<Event>, u: seq<Event>)
    requires Followed(t) && Followed(u)
    ensures Followed(t + u)
  {
    hide WasRead;
    var w := t + u;
    forall ev | ev in w && ev.Attempt? && ev.ok && ev.discover ensures WasRead(w, KeyOf(ev.e)) {
      AttemptedConcat(t, u, KeyOf(ev.e));
      assert ev in t || ev in u;
    }
  }

  /** Two stretches make one. */
  lemma WalkThen(c: set<Key>, t: seq<Event>, d: set<Key>, u: seq<Event>, e: set<Key>, cfg: Config)
    requires Walk(c, t, d, cfg) && Walk(d, u, e, cfg)
    ensures Walk(c, t + u, e, cfg)
  {
    hide Replay, AttemptsAreNew, NothingOverlooked, Followed, KeptByWalk, Attempted, KatoFor, Retained;
    ReplayConcat(c, t, u);
    NewConcat(c, t, u);
    forall k | k in d && k !in c ensures Attempted(t, k) { KeptConcat(t, u, k, cfg.persistent); }
    NothingOverlookedConcat(c, t, d, u);
    FollowedConcat(t, u);
    forall k | k in e && k !in c ensures KeptByWalk(t + u, k, cfg.persistent) { KeptConcat(t, u, k, cfg.persistent); }
    assert forall ev :: ev in t + u ==> ev in t || ev in u;
  }

  lemma WalkNothing(c: set<Key>, cfg: Config)
    ensures Walk(c, [], c, cfg)
  {}

  lemma ReplayOne(c: set<Key>, ev: Event)
    ensures Replay(c, [ev]) == After(c, ev)
  {
    assert [ev][..0] == [];
  }

  /** One event that attempts nothing is a stretch without new attempts, and so is a single
      attempt of a controller that is not connected. */
  lemma NewOne(c: set<Key>, ev: Event)
    requires ev.Attempt? ==> KeyOf(ev.e) !in c
    ensures AttemptsAreNew(c, [ev])
  {
    assert [ev][..0] == [];
  }

  lemma WalkRefused(c: set<Key>, e: Entry, discover: bool, cfg: Config)
    requires KeyOf(e) !in c
    ensures Walk(c, [Attempt(e, KatoFor(e, cfg), false, discover)], c, cfg)
    ensures Attempted([Attempt(e, KatoFor(e, cfg), false, discover)], KeyOf(e))
  {
    hide KatoFor;
    var ev := Attempt(e, KatoFor(e, cfg), false, discover);
    ReplayOne(c, ev);
    NewOne(c, ev);
    assert ev in [ev];
  }

  /** An attempt that succeeds, followed by the walk below the new controller. */
  ghost predicate ChildWalk(c: set<Key>, e: Entry, discover: bool, u: seq<Event>, d: set<Key>, cfg: Config) {
    && KeyOf(e) !in c
    && Walk(c + {KeyOf(e)}, u, d, cfg)
    && (discover ==> WasRead(u, KeyOf(e)))
  }

  function Success(e: Entry, discover: bool, cfg: Config): Event {
    Attempt(e, KatoFor(e, cfg), true, discover)
  }

  /** What connecting and walking below gives, before the keep rule is applied. */
  lemma ChildSteps(c: set<Key>, e: Entry, discover: bool, u: seq<Event>, d: set<Key>, cfg: Config)
    requires ChildWalk(c, e, discover, u, d, cfg)
    ensures var t := [Success(e, discover, cfg)] + u;
            && d == Replay(c, t) && AttemptsAreNew(c, t) && NothingOverlooked(c, t) && Followed(t)
            && SparesOthers(c, t) && KatosRight(t, cfg) && Attempted(t, KeyOf(e))
            && (forall k :: k in d && k !in c && k != KeyOf(e) ==> KeptByWalk(t, k, cfg.persistent))
            && (Keep(e, cfg.persistent) ==> KeptByWalk(t, KeyOf(e), cfg.persistent))
  {
    hide Replay, AttemptsAreNew, NothingOverlooked, Followed, KeptByWalk, Attempted, KatoFor, WasRead;
    var ev := Success(e, discover, cfg);
    var t := [ev] + u;
    SuccessFacts(c, e, discover, cfg);
    ReplayConcat(c, [ev], u);
    NewConcat(c, [ev], u);
    NothingOverlookedConcat(c, [ev], c + {KeyOf(e)}, u);
    FollowedBelow(ev, u);
    AttemptedConcat([ev], u, KeyOf(e));
    forall k | k in d && k !in c && k != KeyOf(e) ensures KeptByWalk(t, k, cfg.persistent) {
      KeptConcat([ev], u, k, cfg.persistent);
    }
    KeptConcat([ev], u, KeyOf(e), cfg.persistent);
    assert forall x :: x in t ==> x == ev || x in u;
  }

  lemma SuccessFacts(c: set<Key>, e: Entry, discover: bool, cfg: Config)
    requires KeyOf(e) !in c
    ensures var t := [Success(e, discover, cfg)];
            && Replay(c, t) == c + {KeyOf(e)} && AttemptsAreNew(c, t) && NothingOverlooked(c, t)
            && Attempted(t, KeyOf(e)) && (Keep(e, cfg.persistent) ==> KeptByWalk(t, KeyOf(e), cfg.persistent))
  {
    hide KatoFor;
    var ev := Success(e, discover, cfg);
    ReplayOne(c, ev);
    NewOne(c, ev);
    assert ev in [ev];
  }

  lemma FollowedBelow(ev: Event, u: seq<Event>)
    requires ev.Attempt? && Followed(u)
    requires ev.ok && ev.discover ==> WasRead(u, KeyOf(ev.e))
    ensures Followed([ev] + u)
  {
    hide WasRead;
    var w := [ev] + u;
    forall x | x in w && x.Attempt? && x.ok && x.discover ensures WasRead(w, KeyOf(x.e)) {
      AttemptedConcat([ev], u, KeyOf(x.e));
      assert x == ev || x in u;
    }
  }

  lemma WalkChildKept(c: set<Key>, e: Entry, discover: bool, u: seq<Event>, d: set<Key>, cfg: Config)
    requires ChildWalk(c, e, discover, u, d, cfg) && Retained(e, cfg.persistent)
    ensures Walk(c, [Success(e, discover, cfg)] + u, d, cfg)
    ensures Attempted([Success(e, discover, cfg)] + u, KeyOf(e))
  {
    hide Replay, AttemptsAreNew, NothingOverlooked, Followed, KeptByWalk, Attempted, KatoFor, Keep, SparesOthers, KatosRight, Retained;
    KeepRetains(e, cfg.persistent);
    ChildSteps(c, e, discover, u, d, cfg);
    assert forall x :: x in [Success(e, discover, cfg)] + u ==> x == Success(e, discover, cfg) || x in u;
  }

  lemma WalkChildDropped(c: set<Key>, e: Entry, discover: bool, u: seq<Event>, d: set<Key>, cfg: Config)
    requires ChildWalk(c, e, discover, u, d, cfg) && !Retained(e, cfg.persistent)
    ensures Walk(c, [Success(e, discover, cfg)] + u + [Disconnect(KeyOf(e))], d - {KeyOf(e)}, cfg)
    ensures Attempted([Success(e, discover, cfg)] + u + [Disconnect(KeyOf(e))], KeyOf(e))
  {
    hide Replay, AttemptsAreNew, NothingOverlooked, Followed, KeptByWalk, Attempted, KatoFor, Keep, Retained;
    var t, x := [Success(e, discover, cfg)] + u, Disconnect(KeyOf(e));
    ChildSteps(c, e, discover, u, d, cfg);
    NeverAttempted(c + {KeyOf(e)}, u, KeyOf(e));
    assert forall y :: y in t ==> y == Success(e, discover, cfg) || y in u;
    ReplayConcat(c, t, [x]);
    ReplayOne(d, x);
    NewOne(d, x);
    NewConcat(c, t, [x]);
    DisconnectFacts(c, t, x);
    forall k | k in d - {KeyOf(e)} && k !in c ensures KeptByWalk(t + [x], k, cfg.persistent) {
      KeptConcat(t, [x], k, cfg.persistent);
    }
    AttemptedConcat(t, [x], KeyOf(e));
    assert forall y :: y in t + [x] ==> y in t || y == x;
  }

  lemma DisconnectFacts(c: set<Key>, t: seq<Event>, x: Event)
    requires x.Disconnect? && NothingOverlooked(c, t) && Followed(t)
    ensures NothingOverlooked(c, t + [x]) && Followed(t + [x])
  {
    assert Followed([x]);
    FollowedConcat(t, [x]);
    NothingOverlookedConcat(c, t, c, [x]);
  }

  /** A controller's log that could not be read. */
  lemma WalkUnread(c: set<Key>, k: Key, cfg: Config)
    ensures Walk(c, [Read(k, None)], c, cfg)
    ensures WasRead([Read(k, None)], k)
  {
    ReplayOne(c, Read(k, None));
    NewOne(c, Read(k, None));
    assert Read(k, None) in [Read(k, None)];
  }

  /** Every eligible entry among the first n of the log is dealt with. */
  ghost predicate DealtWith(c: set<Key>, t: seq<Event>, k: Key, log: seq<Entry>, n: nat) {
    forall i :: 0 <= i < n <= |log| && Eligible(k, log[i]) ==> KeyOf(log[i]) in c || Attempted(t, KeyOf(log[i]))
  }

  /** A log, and the walk over all its entries. */
  lemma WalkRead(c: set<Key>, k: Key, log: seq<Entry>, u: seq<Event>, d: set<Key>, cfg: Config)
    requires Walk(c, u, d, cfg) && DealtWith(c, u, k, log, |log|)
    ensures Walk(c, [Read(k, Some(log))] + u, d, cfg)
    ensures WasRead([Read(k, Some(log))] + u, k)
  {
    hide Replay, AttemptsAreNew, Followed, KeptByWalk, Attempted, KatoFor, Eligible, Retained;
    var ev := Read(k, Some(log));
    var t := [ev] + u;
    ReplayOne(c, ev);
    NewOne(c, ev);
    ReplayConcat(c, [ev], u);
    NewConcat(c, [ev], u);
    ReadFollowed(ev);
    FollowedConcat([ev], u);
    forall x, e | x in t && x.Read? && x.log.Some? && e in x.log.value && Eligible(x.c, e)
      ensures KeyOf(e) in c || Attempted(t, KeyOf(e))
    {
      AttemptedConcat([ev], u, KeyOf(e));
      assert x == ev || x in u;
    }
    forall j | j in d && j !in c ensures KeptByWalk(t, j, cfg.persistent) {
      KeptConcat([ev], u, j, cfg.persistent);
    }
    assert forall x :: x in t ==> x == ev || x in u;
    assert ev in t;
  }

  lemma ReadOnly(c: Key, log: Option<seq<Entry>>)
    ensures WasRead([Read(c, log)], c)
  {
    assert Read(c, log) in [Read(c, log)];
  }

  lemma ReadFollowed(ev: Event)
    requires ev.Read?
    ensures Followed([ev])
  {}

  // ---------------------------------------------------------------- the host

  class Host {
    /** The command line's --persistent, a static variable of the source. */
    const persistentOption: bool
    /** The finitely many controllers that log pages can name. */
    const universe: set<Key>

    /** The controllers that `lookup_ctrl` finds with a device name. */
    var connected: set<Key>
    /** `keep_alive_tmo` of the configuration that all calls share. */
    var keepAliveTmo: int
    /** The calls into libnvme so far. */
    ghost var trace: seq<Event>

    constructor (persistentOption: bool, universe: set<Key>, connected: set<Key>, tmo: int)
      ensures this.persistentOption == persistentOption && this.universe == universe
      ensures this.connected == connected && keepAliveTmo == tmo && trace == []
    {
      this.persistentOption, this.universe := persistentOption, universe;
      this.connected, keepAliveTmo, trace := connected, tmo, [];
    }

    ghost function Cfg(persistent: bool): Config
      reads this
    {
      Config(persistentOption, persistent, keepAliveTmo)
    }

    // ---- libnvme

    /** `nvmf_get_discovery_wargs`: some log that names controllers of the universe, or none. */
    method GetDiscoveryLog(c: Key) returns (log: Option<seq<Entry>>)
      modifies this`trace
      ensures log.Some? ==> forall e :: e in log.value ==> KeyOf(e) in universe
      ensures trace == old(trace) + [Read(c, log)]
    {
      log := *;
      if log.Some? && exists i :: 0 <= i < |log.value| && KeyOf(log.value[i]) !in universe {
        log := None;
      }
      trace := trace + [Read(c, log)];
    }

    /** `nvmf_connect_disc_entry`: fails, or connects the controller the entry names and says
        whether it is a discovery controller. */
    method ConnectDiscEntry(e: Entry) returns (child: Option<Key>, discover: bool)
      modifies this`connected, this`trace
      ensures child.Some? ==> child.value == KeyOf(e) && connected == old(connected) + {KeyOf(e)}
      ensures child.None? ==> connected == old(connected)
      ensures trace == old(trace) + [Attempt(e, keepAliveTmo, child.Some?, discover)]
    {
      var ok: bool := *;
      discover := *;
      if ok {
        child := Some(KeyOf(e));
        connected := connected + {KeyOf(e)};
      } else {
        child := None;
      }
      trace := trace + [Attempt(e, keepAliveTmo, ok, discover)];
    }

    /** `nvme_disconnect_ctrl`. */
    method DisconnectCtrl(k: Key)
      modifies this`connected, this`trace
      ensures connected == old(connected) - {k}
      ensures trace == old(trace) + [Disconnect(k)]
    {
      connected := connected - {k};
      trace := trace + [Disconnect(k)];
    }

    /** `nvmf_add_ctrl`: fails, or connects a controller that was not connected. */
    method AddCtrl(k: Key) returns (ret: int)
      modifies this`connected, this`trace
      ensures ret == 0 ==> k !in old(connected) && connected == old(connected) + {k}
      ensures ret != 0 ==> connected == old(connected)
      ensures trace == old(trace) + [Add(k, keepAliveTmo, ret == 0)]
    {
      ret := *;
      if k in connected && ret == 0 {
        ret := -1;
      }
      if ret == 0 {
        connected := connected + {k};
      }
      trace := trace + [Add(k, keepAliveTmo, ret == 0)];
    }

    // ---- fabrics.c

    /** Model of `set_discovery_kato`. */
    method SetDiscoveryKato() returns (tmo: int)
      modifies this`keepAliveTmo
      ensures tmo == old(keepAliveTmo)
      ensures keepAliveTmo == DiscoveryKato(persistentOption, tmo)
      ensures if persistentOption then keepAliveTmo != 0 else keepAliveTmo <= 0
      ensures (if persistentOption then tmo != 0 else tmo <= 0) ==> keepAliveTmo == tmo
      ensures persistentOption && tmo == 0 ==> keepAliveTmo == 30
    {
      tmo := keepAliveTmo;
      if persistentOption && keepAliveTmo == 0 {
        keepAliveTmo := NVMF_DEF_DISC_TMO;
      } else if !persistentOption && keepAliveTmo > 0 {
        keepAliveTmo := 0;
      }
    }

    /** Model of `__discover`. The ghost result is the walk's own part of the trace. */
    method Discover(c: Key, raw: bool, connect: bool, persistent: bool) returns (ret: int, ghost t: seq<Event>)
      modifies this
      ensures keepAliveTmo == old(keepAliveTmo)
      ensures trace == old(trace) + t
      ensures !raw && connect ==> Walk(old(connected), t, connected, old(Cfg(persistent)))
      ensures raw || !connect ==> connected == old(connected) && |t| == 1
      ensures t != [] && t[0].Read? && t[0].c == c && WasRead(t, c) && Started(t, c)
      ensures ret == 0 <==> t[0].log.Some?
      decreases universe - connected, 1
    {
      hide Walk, DealtWith, Attempted, WasRead, Eligible, Started, Caused;
      ghost var start, cfg := connected, Cfg(persistent);
      var log := GetDiscoveryLog(c);
      t := [Read(c, log)];
      StartedOnly(c, log);
      ReadOnly(c, log);
      if log.None? {
        WalkUnread(start, c, cfg);
        return -1, t;
      }
      if raw {
      } else if !connect {
      } else {
        ghost var u: seq<Event> := [];
        WalkNothing(start, cfg);
        CausedNothing(c, log.value);
        DealtWithNone(start, u, c, log.value);
        var i := 0;
        while i < |log.value|
          invariant 0 <= i <= |log.value|
          invariant keepAliveTmo == old(keepAliveTmo)
          invariant trace == old(trace) + [Read(c, log)] + u
          invariant start <= connected
          invariant Walk(start, u, connected, cfg)
          invariant DealtWith(start, u, c, log.value, i) && Caused(u, c, log.value)
        {
          ghost var before, part := connected, [];
          part := VisitEntry(c, log.value[i], persistent);
          DealtWithNext(start, u, c, log.value, i, before, part, cfg);
          WalkThen(start, u, before, part, connected, cfg);
          WalkGrows(start, u + part, connected, cfg);
          CausedThen(u, part, c, log.value, log.value[i]);
          u := u + part;
          i := i + 1;
        }
        WalkRead(start, c, log.value, u, connected, cfg);
        StartedRead(c, log.value, u);
        t := [Read(c, log)] + u;
      }
      ret := 0;
    }

    /** The body of the loop over the entries of a log. */
    method VisitEntry(c: Key, e: Entry, persistent: bool) returns (ghost t: seq<Event>)
      requires KeyOf(e) in universe
      modifies this
      ensures keepAliveTmo == old(keepAliveTmo)
      ensures trace == old(trace) + t
      ensures Walk(old(connected), t, connected, old(Cfg(persistent)))
      ensures Eligible(c, e) ==> KeyOf(e) in old(connected) || Attempted(t, KeyOf(e))
      ensures Caused(t, c, [e])
      decreases universe - connected, 0
    {
      hide Walk, Attempted, WasRead, Caused, Started;
      ghost var start, cfg := connected, Cfg(persistent);
      var tmo := keepAliveTmo;
      WalkNothing(start, cfg);
      CausedNothing(c, [e]);
      t := [];

      // Already connected?
      if KeyOf(e) in connected {
        return;
      }
      // Skip connect if the transport types do not match.
      if c.transport != e.trtype {
        return;
      }
      var disconnect;
      if e.subtype == NVME_NQN_DISC || e.subtype == NVME_NQN_CURR {
        if e.eflags & NVMF_DISC_EFLAGS_DUPRETINFO != 0 {
          return;
        }
        disconnect := !persistent;
        if e.subnqn != NVME_DISC_SUBSYS_NAME {
          if e.eflags & NVMF_DISC_EFLAGS_EPCSD == 0 {
            disconnect := true;
          } else {
            disconnect := false;
          }
        }
        var _ := SetDiscoveryKato();
      } else {
        disconnect := false;
      }
      assert disconnect == !Retained(e, persistent);
      assert Worth(c, e);
      assert keepAliveTmo == KatoFor(e, cfg);
      hide Retained, Worth, Eligible, KatoFor, DiscoveryKato, Keep, SameInformation;

      var child, discover := ConnectDiscEntry(e);
      keepAliveTmo := tmo;

      if child.None? {
        WalkRefused(start, e, discover, cfg);
        CausedRefused(c, e, KatoFor(e, cfg), discover);
        t := [Attempt(e, KatoFor(e, cfg), false, discover)];
        return;
      }
      ghost var u := BelowChild(c, e, discover, disconnect, persistent, start);
      t := [Success(e, discover, cfg)] + u;
    }

    /** The rest of the loop body, once the child is connected. */
    method BelowChild(c: Key, e: Entry, discover: bool, disconnect: bool, persistent: bool, ghost start: set<Key>)
      returns (ghost t: seq<Event>)
      requires KeyOf(e) !in start && connected == start + {KeyOf(e)} && Worth(c, e) && disconnect == !Retained(e, persistent)
      modifies this
      ensures keepAliveTmo == old(keepAliveTmo)
      ensures trace == old(trace) + t
      ensures var cfg := old(Cfg(persistent));
              var w := [Success(e, discover, cfg)] + t;
              Walk(start, w, connected, cfg) && Attempted(w, KeyOf(e)) && Caused(w, c, [e])
      decreases universe - connected, 2
    {
      hide Walk, Attempted, WasRead, Caused, Started, Retained, Worth, KatoFor;
      ghost var cfg, u := Cfg(persistent), [];
      ghost var s := [Success(e, discover, cfg)];
      WalkNothing(connected, cfg);
      if discover {
        var ret;
        ret, u := Discover(KeyOf(e), false, true, persistent);
      }
      WalkGrows(start + {KeyOf(e)}, u, connected, cfg);
      if disconnect {
        WalkChildDropped(start, e, discover, u, connected, cfg);
        CausedChild(c, e, discover, u, [Disconnect(KeyOf(e))], cfg);
        DisconnectCtrl(KeyOf(e));
        t := u + [Disconnect(KeyOf(e))];
        assert s + t == s + u + [Disconnect(KeyOf(e))];
      } else {
        WalkChildKept(start, e, discover, u, connected, cfg);
        CausedChild(c, e, discover, u, [], cfg);
        t := u;
        assert s + t + [] == s + t;
      }
    }

    /** Model of `__create_discover_ctrl`. */
    method CreateCtrl(k: Key) returns (c: Option<Key>, ghost t: seq<Event>)
      modifies this
      ensures keepAliveTmo == old(keepAliveTmo)
      ensures trace == old(trace) + t && connected == Replay(old(connected), t)
      ensures AddsUnder(t, DiscoveryKato(persistentOption, keepAliveTmo))
      ensures c.Some? ==> c.value == k && k !in old(connected) && connected == old(connected) + {k}
      ensures c.None? ==> connected == old(connected)
      ensures c.Some? <==> Added(t)
      ensures forall ev :: ev in t ==> ev.Add?
    {
      var created: bool := *;
      t := [];
      if !created {
        return None, t;
      }
      var tmo := SetDiscoveryKato();
      var ret := AddCtrl(k);
      t := [Add(k, keepAliveTmo, ret == 0)];
      assert t[0] in t;
      ReplayOne(old(connected), t[0]);
      keepAliveTmo := tmo;
      if ret != 0 {
        return None, t;
      }
      return Some(k), t;
    }

    /** Model of `nvmf_create_discover_ctrl`. `bufferOk` says whether the buffer for the
        identify data could be allocated. */
    method CreateDiscoverCtrl(k: Key, bufferOk: bool) returns (c: Option<Key>, ghost t: seq<Event>)
      modifies this
      ensures keepAliveTmo == old(keepAliveTmo)
      ensures trace == old(trace) + t && connected == Replay(old(connected), t)
      ensures AddsUnder(t, DiscoveryKato(persistentOption, keepAliveTmo))
      ensures c.Some? ==> c.value !in old(connected) && connected == old(connected) + {c.value}
      ensures c.Some? && k.subsysnqn != NVME_DISC_SUBSYS_NAME ==> c.value == k
      ensures c.Some? && k.subsysnqn == NVME_DISC_SUBSYS_NAME ==> exists ev :: ev in t && ev.Identified?
      ensures c.Some? ==> forall ev :: ev in t && ev.Identified? ==> NamedBy(k, c.value, ev)
      ensures c.None? && connected != old(connected) <==> Leaks(k, bufferOk) && Added(t)
      ensures Leaks(k, bufferOk) && Added(t) ==> k !in old(connected) && connected == old(connected) + {k}
      ensures old(connected) <= connected && forall ev :: ev in t ==> !ev.Attempt? && !ev.Read?
    {
      hide Replay;
      c, t := CreateCtrl(k);
      if c.None? {
        return;
      }
      if k.subsysnqn != NVME_DISC_SUBSYS_NAME {
        return;
      }
      if !bufferOk {
        return None, t;
      }
      var name := Identify(k);
      ReplayConcat(old(connected), t, [Identified(k, name)]);
      ReplayOne(connected, Identified(k, name));
      t := t + [Identified(k, name)];
      assert Identified(k, name) in t;
      if name.Some? && name.value == NVME_DISC_SUBSYS_NAME {
        return;
      }
      DisconnectCtrl(k);
      ReplayConcat(old(connected), t, [Disconnect(k)]);
      ReplayOne(connected + {k}, Disconnect(k));
      t := t + [Disconnect(k)];
      if name.None? {
        return None, t;
      }
      ghost var u;
      c, u := CreateCtrl(k.(subsysnqn := name.value));
      ReplayConcat(old(connected), t, u);
      t := t + u;
      assert Identified(k, name) in t;
    }

    /** `nvme_ctrl_identify`: the subsystem's own name, or nothing. */
    method Identify(k: Key) returns (name: Option<string>)
      modifies this`trace
      ensures trace == old(trace) + [Identified(k, name)]
    {
      name := *;
      trace := trace + [Identified(k, name)];
    }

    /** Model of the tail of a discovery command: find or create the root controller, walk,
        and drop the root again unless it is to stay. The lookup also finds a root that is
        `known` without a device name. */
    method DiscoverCommand(k: Key, known: bool, force: bool, raw: bool, connect: bool, pdcEnabled: bool, bufferOk: bool)
      returns (root: Option<Key>, ghost t: seq<Event>)
      modifies this
      ensures keepAliveTmo == old(keepAliveTmo)
      ensures trace == old(trace) + t
      ensures old(connected) <= connected
      ensures forall j :: j in connected && j !in old(connected) ==>
                || KeptByWalk(t, j, persistentOption || (!force && (known || k in old(connected))))
                || (root == Some(j) && (persistentOption || (pdcEnabled && j.subsysnqn != NVME_DISC_SUBSYS_NAME)))
                || (root.None? && j == k && Leaks(k, bufferOk))
      ensures root.Some? ==> WasRead(t, root.value) && Started(t, root.value)
      ensures root.Some? && !(!force && (known || k in old(connected))) ==>
                (root.value in connected <==> persistentOption || (pdcEnabled && root.value.subsysnqn != NVME_DISC_SUBSYS_NAME))
      ensures root.Some? && !raw && connect ==>
                RetainedStay(t, connected, persistentOption || (!force && (known || k in old(connected))))
      ensures KatosRight(t, Config(persistentOption, false, keepAliveTmo))
      ensures root.None? ==> (connected != old(connected) <==> Leaks(k, bufferOk) && Added(t))
      ensures !force && (known || k in old(connected)) && !raw && connect ==>
                root == Some(k) && Walk(old(connected), t, connected, Config(persistentOption, true, keepAliveTmo))
    {
      hide Replay, Walk, KeptByWalk, WasRead, Added, Started, RetainedStay, KatosRight, NamedBy;
      ghost var u;
      var ret;
      if !force && (known || k in connected) {
        ret, t := Discover(k, raw, connect, true);
        if !raw && connect {
          WalkKeeps(old(connected), t, connected, old(Cfg(true)));
        } else {
          KatosOfRead(t, Config(persistentOption, false, keepAliveTmo));
        }
        return Some(k), t;
      }
      root, t := CreateDiscoverCtrl(k, bufferOk);
      if root.None? {
        KatosOfNone(t, Config(persistentOption, false, keepAliveTmo));
        return;
      }
      ghost var middle := connected;
      ret, u := Discover(root.value, raw, connect, persistentOption);
      ghost var rest: seq<Event> := [];
      if !raw && connect {
        WalkKeeps(middle, u, connected, old(Cfg(persistentOption)));
        WalkSparesRoot(middle, u, connected, old(Cfg(persistentOption)), root.value);
      } else {
        KatosOfRead(u, Config(persistentOption, persistentOption, keepAliveTmo));
      }
      if !(persistentOption || (pdcEnabled && root.value.subsysnqn != NVME_DISC_SUBSYS_NAME)) {
        DisconnectCtrl(root.value);
        rest := [Disconnect(root.value)];
      }
      Around(t, u, rest, root.value, connected, Config(persistentOption, persistentOption, keepAliveTmo));
      t := t + u + rest;
    }
  }

  /** A run between events that attempt and read nothing. */
  lemma Around(t: seq<Event>, u: seq<Event>, rest: seq<Event>, root: Key, d: set<Key>, cfg: Config)
    requires Started(u, root) && WasRead(u, root) && KatosRight(u, cfg)
    requires forall ev :: ev in t || ev in rest ==> !ev.Attempt? && !ev.Read?
    ensures Started(t + u + rest, root) && WasRead(t + u + rest, root)
    ensures KatosRight(t + u + rest, cfg.(persistent := false))
    ensures RetainedStay(u, d, cfg.persistent) ==> RetainedStay(t + u + rest, d, cfg.persistent)
    ensures forall j :: KeptByWalk(u, j, cfg.persistent) ==> KeptByWalk(t + u + rest, j, cfg.persistent)
  {
    hide Started, WasRead, KeptByWalk, Retained;
    StartedWithin(t, u, rest, root);
    AttemptedConcat(t, u, root);
    AttemptedConcat(t + u, rest, root);
    assert forall ev :: ev in t + u + rest ==> ev in t || ev in u || ev in rest;
    forall j | KeptByWalk(u, j, cfg.persistent) ensures KeptByWalk(t + u + rest, j, cfg.persistent) {
      KeptConcat(t, u, j, cfg.persistent);
      KeptConcat(t + u, rest, j, cfg.persistent);
    }
  }

  lemma KatosOfRead(t: seq<Event>, cfg: Config)
    requires |t| == 1 && t[0].Read?
    ensures KatosRight(t, cfg)
  {}

  lemma KatosOfNone(t: seq<Event>, cfg: Config)
    requires forall ev :: ev in t ==> !ev.Attempt?
    ensures KatosRight(t, cfg)
  {}

  /** What stays does not depend on a root that was connected before the walk. */
  lemma WalkSparesRoot(c: set<Key>, t: seq<Event>, d: set<Key>, cfg: Config, root: Key)
    requires Walk(c, t, d, cfg) && root in c
    ensures KatosRight(t, cfg) && RetainedStay(t, d, cfg.persistent) && RetainedStay(t, d - {root}, cfg.persistent)
    ensures root in d
  {
    hide Replay, KeptByWalk, NothingOverlooked, Followed, Retained;
    NeverAttempted(c, t, root);
  }

  /** The one way in which a failed creation leaves a controller connected. */
  predicate Leaks(k: Key, bufferOk: bool) {
    k.subsysnqn == NVME_DISC_SUBSYS_NAME && !bufferOk
  }

  /** The controller is k under the name that k has given for itself. */
  predicate NamedBy(k: Key, c: Key, ev: Event)
    requires ev.Identified?
  {
    ev.k == k && ev.name.Some? && c == k.(subsysnqn := ev.name.value)
  }

  ghost predicate AddsUnder(t: seq<Event>, kato: int) {
    forall ev :: ev in t && ev.Add? ==> ev.addKato == kato
  }

  lemma WalkKeeps(c: set<Key>, t: seq<Event>, d: set<Key>, cfg: Config)
    requires Walk(c, t, d, cfg)
    ensures c <= d && forall k :: k in d && k !in c ==> KeptByWalk(t, k, cfg.persistent)
    ensures RetainedStay(t, d, cfg.persistent) && KatosRight(t, cfg.(persistent := false))
  {}

  lemma WalkGrows(c: set<Key>, t: seq<Event>, d: set<Key>, cfg: Config)
    requires Walk(c, t, d, cfg)
    ensures c <= d
  {}

  lemma DealtWithNone(c: set<Key>, t: seq<Event>, k: Key, log: seq<Entry>)
    ensures DealtWith(c, t, k, log, 0)
  {}

  lemma DealtWithNext(c: set<Key>, t: seq<Event>, k: Key, log: seq<Entry>, i: nat, d: set<Key>, u: seq<Event>, cfg: Config)
    requires i < |log| && DealtWith(c, t, k, log, i) && Walk(c, t, d, cfg)
    requires Eligible(k, log[i]) ==> KeyOf(log[i]) in d || Attempted(u, KeyOf(log[i]))
    ensures DealtWith(c, t + u, k, log, i + 1)
  {
    hide Attempted, Eligible, KeptByWalk, Replay, AttemptsAreNew, NothingOverlooked, Followed, SparesOthers, KatosRight;
    forall j | 0 <= j < i + 1 && Eligible(k, log[j]) ensures KeyOf(log[j]) in c || Attempted(t + u, KeyOf(log[j])) {
      AttemptedConcat(t, u, KeyOf(log[j]));
      if j == i && KeyOf(log[i]) in d && KeyOf(log[i]) !in c {
        KeptConcat(t, u, KeyOf(log[i]), cfg.persistent);
      }
    }
  }

  // ---------------------------------------------------------------- keep-alive of what stays

  /** Every discovery controller that the walk connects and retains has a keep-alive timeout. */
  ghost predicate KeptAlive(t: seq<Event>, cfg: Config) {
    forall ev :: ev in t && ev.Attempt? && ev.ok && IsDiscovery(ev.e) && Keep(ev.e, cfg.persistent) ==> ev.kato != 0
  }

  /** An entry for a discovery controller, under the well-known or a name of its own. */
  function Referral(transport: string, subnqn: string): Entry {
    Entry(transport, "", "", subnqn, NVME_NQN_DISC, NVMF_DISC_EFLAGS_EPCSD)
  }

  /** The timeout follows the option, the keep rule the parameter: an entry that is retained
      always has a timeout exactly if the option is set or the caller's timeout negative. */
  lemma RetainedHasTimeoutIff(cfg: Config)
    ensures (forall e :: IsDiscovery(e) && Keep(e, cfg.persistent) ==> KatoFor(e, cfg) != 0)
            <==> cfg.persistentOption || cfg.tmo < 0
  {
    var e := Referral("tcp", "own");
    assert IsDiscovery(e) && Keep(e, cfg.persistent);
  }

  /** The events of a referral that is connected, asked for its log, which is empty, and kept. */
  function ReferralKept(e: Entry, cfg: Config): seq<Event> {
    [Success(e, true, cfg), Read(KeyOf(e), Some([]))]
  }

  /** A retained referral, alone, is a walk. */
  lemma RetainedAlone(c: set<Key>, e: Entry, cfg: Config)
    requires IsDiscovery(e) && Keep(e, cfg.persistent) && KeyOf(e) !in c
    ensures var t := ReferralKept(e, cfg);
            Walk(c, t, c + {KeyOf(e)}, cfg) && Attempted(t, KeyOf(e)) && (KeptAlive(t, cfg) ==> KatoFor(e, cfg) != 0)
  {
    hide Walk, Attempted, WasRead;
    var t, d := ReferralKept(e, cfg), c + {KeyOf(e)};
    WalkNothing(d, cfg);
    DealtWithNone(d, [], KeyOf(e), []);
    WalkRead(d, KeyOf(e), [], [], d, cfg);
    var u := [Read(KeyOf(e), Some([]))];
    assert u + [] == u && [Success(e, true, cfg)] + u == t;
    WalkChildKept(c, e, true, u, d, cfg);
    assert t[0] in t;
  }

  /** The same for whole walks: in every one all that stays is kept alive, exactly then. */
  lemma WalksKeepAliveIff(cfg: Config)
    ensures (forall c, t, d :: Walk(c, t, d, cfg) ==> KeptAlive(t, cfg)) <==> cfg.persistentOption || cfg.tmo < 0
  {
    hide Replay, AttemptsAreNew, NothingOverlooked, Followed, SparesOthers;
    if !(cfg.persistentOption || cfg.tmo < 0) {
      var e := Referral("tcp", "own");
      RetainedAlone({}, e, cfg);
    }
  }

  /** Discovery through a root that is connected already, without the option: the walk is
      asked to be persistent, so a referral under the well-known name stays, but without a
      keep-alive timeout. */
  lemma StaysWithoutKeepAlive(root: Key, tmo: int)
    requires root.traddr != "" && tmo >= 0
    ensures var cfg := Config(false, true, tmo);
            var e := Referral(root.transport, NVME_DISC_SUBSYS_NAME);
            var t := [Read(root, Some([e])), Attempt(e, 0, true, true), Read(KeyOf(e), Some([]))];
            Walk({root}, t, {root, KeyOf(e)}, cfg) && !KeptAlive(t, cfg)
  {
    hide Walk, Attempted;
    var cfg := Config(false, true, tmo);
    var e := Referral(root.transport, NVME_DISC_SUBSYS_NAME);
    var u := ReferralKept(e, cfg);
    var t := [Read(root, Some([e])), Attempt(e, 0, true, true), Read(KeyOf(e), Some([]))];
    RetainedAlone({root}, e, cfg);
    assert {root} + {KeyOf(e)} == {root, KeyOf(e)};
    WalkRead({root}, root, [e], u, {root, KeyOf(e)}, cfg);
    assert t == [Read(root, Some([e]))] + u;
    assert t[1] in t;
  }

  // ---------------------------------------------------------------- what entries mean

  /** Keep rule, eligibility, timeout and key in terms of an entry's bits. */
  lemma EntryMeans(c: Key, e: Entry, cfg: Config)
    ensures Keep(e, cfg.persistent) <==> Retained(e, cfg.persistent)
    ensures Eligible(c, e) <==> Worth(c, e)
    ensures e.subtype != 1 && e.subtype != 3 ==> KatoFor(e, cfg) == cfg.tmo
    ensures e.subtype == 1 || e.subtype == 3 ==>
              KatoFor(e, cfg) == if cfg.tmo == 0 && cfg.persistentOption then 30
                                 else if cfg.tmo > 0 && !cfg.persistentOption then 0 else cfg.tmo
    ensures KeyOf(e).transport == e.trtype && KeyOf(e).traddr == e.traddr
    ensures KeyOf(e).trsvcid == e.trsvcid && KeyOf(e).subsysnqn == e.subnqn
  {}

  // ---------------------------------------------------------------- completeness

  /** A fabric that answers the same all the time: the log of every controller, and the
      controllers that accept a connection and say they are discovery controllers. */
  datatype Fabric = Fabric(logs: map<Key, seq<Entry>>, referrals: set<Key>)

  ghost predicate Answers(f: Fabric, t: seq<Event>) {
    && (forall ev :: ev in t && ev.Read? ==> ev.log == if ev.c in f.logs then Some(f.logs[ev.c]) else None)
    && (forall ev :: ev in t && ev.Attempt? && KeyOf(ev.e) in f.referrals ==> ev.ok && ev.discover)
  }

  /** The log of a names the discovery controller b in an entry worth following. */
  ghost predicate Refers(f: Fabric, a: Key, b: Key) {
    a in f.logs && b in f.referrals && exists e :: e in f.logs[a] && Eligible(a, e) && KeyOf(e) == b
  }

  /** A chain of referrals. */
  ghost predicate Chain(f: Fabric, p: seq<Key>) {
    p != [] && forall i :: 0 < i < |p| ==> Refers(f, p[i - 1], p[i])
  }

  /** Every controller at the end of a chain of referrals from the root is read, however the
      chains run into each other, unless one of them was connected before the walk. */
  lemma {:induction false} ReadsWholeChain(f: Fabric, c: set<Key>, t: seq<Event>, d: set<Key>, cfg: Config, p: seq<Key>)
    requires Walk(c, t, d, cfg) && Answers(f, t)
    requires Chain(f, p) && WasRead(t, p[0])
    requires forall i :: 0 <= i < |p| && p[i] in c ==> p[i] == p[0]
    ensures WasRead(t, p[|p| - 1])
    decreases |p|
  {
    hide Eligible, WasRead, Attempted, KatoFor;
    if |p| > 1 {
      var n := |p| - 1;
      var q := p[..n];
      assert Chain(f, q) by {
        forall i | 0 < i < |q| ensures Refers(f, q[i - 1], q[i]) { assert Refers(f, p[i - 1], p[i]); }
      }
      ReadsWholeChain(f, c, t, d, cfg, q);
      var a, b := p[n - 1], p[n];
      assert Refers(f, a, b);
      var e :| e in f.logs[a] && Eligible(a, e) && KeyOf(e) == b;
      EntryOfRead(f, c, t, a, e);
      if b !in c {
        AttemptIsFollowed(f, t, b);
      }
    }
  }

  lemma EntryOfRead(f: Fabric, c: set<Key>, t: seq<Event>, a: Key, e: Entry)
    requires NothingOverlooked(c, t) && Answers(f, t) && WasRead(t, a)
    requires a in f.logs && e in f.logs[a] && Eligible(a, e)
    ensures KeyOf(e) in c || Attempted(t, KeyOf(e))
  {
    hide Eligible, Attempted;
    var ev :| ev in t && ev.Read? && ev.c == a;
    assert ev.log == Some(f.logs[a]);
    assert e in ev.log.value;
  }

  lemma AttemptIsFollowed(f: Fabric, t: seq<Event>, b: Key)
    requires Followed(t) && Answers(f, t) && b in f.referrals && Attempted(t, b)
    ensures WasRead(t, b)
  {
    hide WasRead;
    var ev :| ev in t && ev.Attempt? && KeyOf(ev.e) == b;
  }

  /** Completeness: if no discovery controller but the root is connected when the walk
      starts, then every eligible entry in the log of every controller that a chain of
      referrals reaches has been attempted, or is connected at the end. */
  lemma DiscoveryIsComplete(f: Fabric, c: set<Key>, t: seq<Event>, d: set<Key>, cfg: Config, p: seq<Key>, e: Entry)
    requires Walk(c, t, d, cfg) && Answers(f, t)
    requires Chain(f, p) && WasRead(t, p[0])
    requires forall k :: k in c && k in f.referrals ==> k == p[0]
    requires var last := p[|p| - 1]; last in f.logs && e in f.logs[last] && Eligible(last, e)
    ensures Attempted(t, KeyOf(e)) || KeyOf(e) in d
  {
    hide Eligible, WasRead, Attempted, KatoFor;
    forall i | 0 <= i < |p| && p[i] in c ensures p[i] == p[0] {
      if i > 0 { assert Refers(f, p[i - 1], p[i]); }
    }
    ReadsWholeChain(f, c, t, d, cfg, p);
    EntryOfRead(f, c, t, p[|p| - 1], e);
  }
}
