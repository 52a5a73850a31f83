/** The admin ledgers: newest-first logs loaded page by page over asynchronous requests. Replies may
    come in any order or never; a sequence number lets only the newest request's reply apply. Rows
    are represented by their ids. */
module PagedLog {
  import opened Results

  const PAGE: nat := 50

  predicate Distinct(s: seq<nat>) {
    forall i, j :: 0 <= i < j < |s| ==> s[i] != s[j]
  }

  // ---- appending a page ----

  function Unseen(incoming: seq<nat>, seen: seq<nat>): (r: seq<nat>)
    ensures forall x :: x in r <==> x in incoming && x !in seen
  {
    if |incoming| == 0 then []
    else (if incoming[0] in seen then [] else [incoming[0]]) + Unseen(incoming[1..], seen)
  }

  /** Rows of a later page that are not held yet, after the ones that are. */
  function AppendPage(current: seq<nat>, incoming: seq<nat>): seq<nat> {
    current + Unseen(incoming, current)
  }

  lemma {:induction false} UnseenDistinct(incoming: seq<nat>, seen: seq<nat>)
    requires Distinct(incoming)
    ensures Distinct(Unseen(incoming, seen))
  {
    if |incoming| > 0 {
      var rest := incoming[1..];
      UnseenDistinct(rest, seen);
      assert incoming[0] !in rest;
      var r := Unseen(rest, seen);
      if incoming[0] !in seen {
        forall i, j | 0 <= i < j < 1 + |r| ensures ([incoming[0]] + r)[i] != ([incoming[0]] + r)[j] {
          if i == 0 {
            assert r[j - 1] in rest;
          }
        }
      }
    }
  }

  lemma AppendDistinct(current: seq<nat>, incoming: seq<nat>)
    requires Distinct(current) && Distinct(incoming)
    ensures Distinct(AppendPage(current, incoming))
  {
    UnseenDistinct(incoming, current);
    var u := Unseen(incoming, current);
    forall i, j | 0 <= i < j < |current| + |u| ensures (current + u)[i] != (current + u)[j] {
      if i < |current| <= j {
        assert u[j - |current|] in u;
        assert current[i] in current;
      }
    }
  }

  /** A page whose first rows are held and whose others are not. */
  lemma {:induction false} UnseenSplit(held: seq<nat>, fresh': seq<nat>, seen: seq<nat>)
    requires forall x :: x in held ==> x in seen
    requires forall x :: x in fresh' ==> x !in seen
    ensures Unseen(held + fresh', seen) == fresh'
  {
    if |held| > 0 {
      forall x | x in held[1..] ensures x in seen {
        assert x in held;
      }
      UnseenSplit(held[1..], fresh', seen);
      assert held[0] in held && (held + fresh')[0] == held[0];
      assert (held + fresh')[1..] == held[1..] + fresh';
    } else {
      assert held + fresh' == fresh';
      AllUnseen(fresh', seen);
    }
  }

  lemma {:induction false} AllUnseen(rows: seq<nat>, seen: seq<nat>)
    requires forall x :: x in rows ==> x !in seen
    ensures Unseen(rows, seen) == rows
  {
    if |rows| > 0 {
      forall x | x in rows[1..] ensures x !in seen {
        assert x in rows;
      }
      AllUnseen(rows[1..], seen);
      assert rows[0] in rows;
    }
  }

  // ---- the client ----

  datatype Request = Request(number: nat, append: bool, offset: nat)

  /** How a request ends: refused, failed, or with rows. */
  datatype Outcome = Denied | Failed | Rows(rows: Option<seq<nat>>, total: Option<nat>)

  datatype Client = Client(loaded: seq<nat>, total: nat, newest: nat)

  function Issue(c: Client, append: bool): (Client, Request) {
    var c' := c.(newest := c.newest + 1);
    (c', Request(c'.newest, append, if append then |c.loaded| else 0))
  }

  function Applies(c: Client, r: Request, o: Outcome): bool {
    o.Rows? && r.number == c.newest
  }

  function Landed(c: Client, r: Request, o: Outcome): Client {
    if !Applies(c, r, o) then c
    else
      var rows := if o.rows.Some? then o.rows.value else [];
      var loaded := if r.append then AppendPage(c.loaded, rows) else rows;
      c.(loaded := loaded, total := if o.total.Some? then o.total.value else |loaded|)
  }

  /** A ledger's module variables, and its load split at the point where it waits. */
  class Ledger {
    var rows: seq<nat>
    var total: nat
    var reqSeq: nat

    function State(): Client
      reads this
    {
      Client(rows, total, reqSeq)
    }

    constructor ()
      ensures State() == Client([], 0, 0)
    {
      rows, total, reqSeq := [], 0, 0;
    }

    method Load(append: bool) returns (request: Request)
      modifies this
      ensures (State(), request) == Issue(old(State()), append)
      ensures rows == old(rows) && total == old(total) && reqSeq == old(reqSeq) + 1
      ensures request.number == reqSeq && request.append == append
      ensures request.offset == if append then |rows| else 0
    {
      reqSeq := reqSeq + 1;
      var offset := if append then |rows| else 0;
      request := Request(reqSeq, append, offset);
    }

    /** Returns whether the reply was applied: the newest request's, with rows. It replaces the rows on
        screen or goes behind them, and the total is the reply's count, or the rows on screen where it
        has none. */
    method Land(request: Request, outcome: Outcome) returns (applied: bool)
      modifies this
      ensures State() == Landed(old(State()), request, outcome)
      ensures applied == (outcome.Rows? && request.number == old(reqSeq)) && reqSeq == old(reqSeq)
      ensures !applied ==> rows == old(rows) && total == old(total)
      ensures applied ==>
        var page := if outcome.rows.Some? then outcome.rows.value else [];
        && rows == (if request.append then AppendPage(old(rows), page) else page)
        && total == if outcome.total.Some? then outcome.total.value else |rows|
    {
      match outcome
      case Denied => return false;
      case Failed => return false;
      case Rows(incoming, count) =>
        if request.number != reqSeq {
          return false;
        }
        var page := if incoming.Some? then incoming.value else [];
        rows := if request.append then AppendPage(rows, page) else page;
        total := if count.Some? then count.value else |rows|;
        return true;
    }
  }

  // ---- runs of client and server together ----

  /** A reply on its way: the page, and the log as it stood when the page was cut. */
  datatype Reply = Reply(request: Request, page: seq<nat>, log: seq<nat>)

  /** `base` is the log that the last applied reset came from, `latest` the one that the last applied
      reply of either kind came from; `kept` says that each append applied since the reset was cut while
      the rows arrived since `base` were no more than the rows loaded. */
  datatype System = System(log: seq<nat>, client: Client, waiting: set<Request>, replies: set<Reply>,
                           base: seq<nat>, kept: bool, latest: seq<nat>)

  datatype Event =
    | Arrive(id: nat)
    | Load(append: bool)
    | Serve(request: Request)
    | Deliver(reply: Reply)
    | Fail(reply: Reply)
    | Lose(request: Request)

  /** The server's answer: at most a page of rows from the offset on. */
  function PageAt(log: seq<nat>, offset: nat): seq<nat> {
    if offset >= |log| then [] else if offset + PAGE <= |log| then log[offset..offset + PAGE] else log[offset..]
  }

  ghost predicate Enabled(s: System, e: Event) {
    match e
    case Arrive(id) => id !in s.log
    case Load(_) => true
    case Serve(request) => request in s.waiting
    case Deliver(reply) => reply in s.replies
    case Fail(reply) => reply in s.replies
    case Lose(request) => request in s.waiting
  }

  ghost function After(s: System, e: Event): System
    requires Enabled(s, e)
  {
    match e
    case Arrive(id) => s.(log := [id] + s.log)
    case Load(append) =>
      var (client, request) := Issue(s.client, append);
      s.(client := client, waiting := s.waiting + {request})
    case Serve(request) =>
      s.(waiting := s.waiting - {request},
         replies := s.replies + {Reply(request, PageAt(s.log, request.offset), s.log)})
    case Deliver(reply) =>
      var o := Rows(Some(reply.page), Some(|reply.log|));
      var applies := Applies(s.client, reply.request, o);
      s.(client := Landed(s.client, reply.request, o), replies := s.replies - {reply},
         base := if applies && !reply.request.append then reply.log else s.base,
         latest := if applies then reply.log else s.latest,
         kept := if !applies then s.kept
                 else !reply.request.append || (s.kept && |reply.log| <= |s.base| + |s.client.loaded|))
    case Fail(reply) =>
      s.(client := Landed(s.client, reply.request, Failed), replies := s.replies - {reply})
    case Lose(request) => s.(waiting := s.waiting - {request})
  }

  /** Nothing loaded, nothing in flight. */
  ghost predicate Initial(s: System) {
    Distinct(s.log) && s.client == Client([], 0, 0) && s.waiting == {} && s.replies == {}
    && s.base == [] && s.kept && s.latest == []
  }

  ghost predicate Reaches(s: System, events: seq<Event>, t: System)
    decreases |events|
  {
    if |events| == 0 then s == t
    else
      var m := |events| - 1;
      exists u :: Reaches(s, events[..m], u) && Enabled(u, events[m]) && After(u, events[m]) == t
  }

  /** An older log is a suffix of a newer one. */
  predicate Older(a: seq<nat>, b: seq<nat>) {
    |a| <= |b| && b[|b| - |a|..] == a
  }

  ghost predicate ValidRequest(s: System, r: Request) {
    r.number <= s.client.newest && (r.number == s.client.newest && r.append ==> r.offset == |s.client.loaded|)
  }

  ghost predicate ValidReply(s: System, p: Reply) {
    && ValidRequest(s, p.request)
    && Older(p.log, s.log) && p.page == PageAt(p.log, p.request.offset)
    && (p.request.number == s.client.newest && p.request.append ==> Older(s.base, p.log))
    && (p.request.number == s.client.newest ==> Older(s.latest, p.log))
    && (!p.request.append ==> p.request.offset == 0)
  }

  ghost predicate Inv(s: System) {
    && Distinct(s.log) && Older(s.base, s.log)
    && Distinct(s.client.loaded)
    && (forall r :: r in s.waiting ==> ValidRequest(s, r) && (!r.append ==> r.offset == 0))
    && (forall p :: p in s.replies ==> ValidReply(s, p))
    && (forall p, q :: p in s.replies && q in s.replies && p.request.number == q.request.number ==> p == q)
    && (forall p, r :: p in s.replies && r in s.waiting ==> p.request.number != r.number)
    && (forall p, r :: p in s.waiting && r in s.waiting && p.number == r.number ==> p == r)
    && (s.kept <==> s.client.loaded <= s.base)
    && Older(s.latest, s.log) && s.client.total == |s.latest|
    && forall x :: x in s.client.loaded ==> x in s.latest
  }

  lemma SuffixDistinct(a: seq<nat>, b: seq<nat>)
    requires Older(a, b) && Distinct(b)
    ensures Distinct(a)
  {
    var k := |b| - |a|;
    forall i, j | 0 <= i < j < |a| ensures a[i] != a[j] {
      assert a[i] == b[k + i] && a[j] == b[k + j];
    }
  }

  lemma PageDistinct(log: seq<nat>, offset: nat)
    requires Distinct(log)
    ensures Distinct(PageAt(log, offset))
  {
  }

  lemma PageMembers(log: seq<nat>, offset: nat)
    ensures forall x :: x in PageAt(log, offset) ==> x in log
  {
  }

  lemma OlderMembers(a: seq<nat>, b: seq<nat>)
    requires Older(a, b)
    ensures forall x :: x in a ==> x in b
  {
    forall x | x in a ensures x in b {
      var i :| 0 <= i < |a| && a[i] == x;
      assert b[|b| - |a| + i] == x;
    }
  }

  function Max(a: int, b: int): int {
    if a < b then b else a
  }

  function Min(a: int, b: int): int {
    if a < b then a else b
  }

  /** All of the page is on screen already. */
  lemma PageHeld(base: seq<nat>, log: seq<nat>, loaded: seq<nat>)
    requires Older(base, log) && loaded <= base
    requires |log| - |base| <= |loaded|
    requires |base| <= |loaded| || PAGE <= |log| - |base|
    ensures AppendPage(loaded, PageAt(log, |loaded|)) == loaded
  {
    var a, n := |log| - |base|, |loaded|;
    var page := PageAt(log, n);
    forall x | x in page ensures x in loaded {
      var i :| 0 <= i < |page| && page[i] == x;
      assert log[n + i] == base[n + i - a] == loaded[n + i - a];
    }
    UnseenSplit(page, [], loaded);
    assert page + [] == page && loaded + [] == loaded;
  }

  /** The page begins with rows on screen and goes on with the rows that follow them. */
  lemma PageOverlaps(base: seq<nat>, log: seq<nat>, loaded: seq<nat>)
    requires Distinct(log) && Older(base, log) && loaded <= base
    requires |log| - |base| <= |loaded| < |base| && |log| - |base| < PAGE
    ensures AppendPage(loaded, PageAt(log, |loaded|))
         == base[..Min(|base|, |loaded| + PAGE - (|log| - |base|))]
  {
    var a, n := |log| - |base|, |loaded|;
    var end := Min(|base|, n + PAGE - a);
    SuffixDistinct(base, log);
    var held, later := base[n - a..n], base[n..end];
    assert PageAt(log, n) == held + later by {
      assert PageAt(log, n) == log[n..a + end] == log[a..][n - a..end];
    }
    hide PageAt;
    SliceHeld(base, loaded, n - a);
    SliceLater(base, loaded, end);
    UnseenSplit(held, later, loaded);
    assert loaded + later == base[..end];
  }

  lemma SliceHeld(base: seq<nat>, loaded: seq<nat>, i: nat)
    requires loaded <= base && i <= |loaded|
    ensures forall x :: x in base[i..|loaded|] ==> x in loaded
  {
    assert base[i..|loaded|] == loaded[i..];
  }

  lemma SliceLater(base: seq<nat>, loaded: seq<nat>, end: nat)
    requires Distinct(base) && loaded <= base && |loaded| <= end <= |base|
    ensures forall x :: x in base[|loaded|..end] ==> x !in loaded
  {
    var later := base[|loaded|..end];
    forall x | x in later ensures x !in loaded {
      var i :| 0 <= i < |later| && later[i] == x;
      assert base[|loaded| + i] == x;
    }
  }

  /** The heart of it: rows arrived since the reset shift the window by as many places. While they are
      no more than the rows loaded, the page overlaps the list, and what remains of it continues the
      list without a gap: a page, less one row for each arrival. */
  lemma AppendWithinLoaded(base: seq<nat>, log: seq<nat>, loaded: seq<nat>)
    requires Distinct(log) && Older(base, log) && loaded <= base
    requires |log| - |base| <= |loaded|
    ensures AppendPage(loaded, PageAt(log, |loaded|))
         == base[..Max(|loaded|, Min(|base|, |loaded| + PAGE - (|log| - |base|)))]
  {
    hide Distinct, AppendPage, PageAt, Older;
    if |base| <= |loaded| || PAGE <= |log| - |base| {
      PageHeld(base, log, loaded);
    } else {
      PageOverlaps(base, log, loaded);
    }
  }

  /** Once more rows have arrived than are loaded, the page starts inside the new rows, and one of
      them is appended out of place. */
  lemma AppendBeyondLoaded(base: seq<nat>, log: seq<nat>, loaded: seq<nat>)
    requires Distinct(log) && Older(base, log) && loaded <= base
    requires |log| - |base| > |loaded|
    ensures !(AppendPage(loaded, PageAt(log, |loaded|)) <= base)
  {
    var a, n := |log| - |base|, |loaded|;
    var page := PageAt(log, n);
    var row := log[n];
    assert page[0] == row;
    forall i | 0 <= i < |base| ensures base[i] != row {
      assert base[i] == log[a + i];
    }
    var u := Unseen(page, loaded);
    assert row in u;
    var i :| 0 <= i < |u| && u[i] == row;
    var r := AppendPage(loaded, page);
    PrefixMembers(r, base, n + i);
  }

  lemma PrefixMembers(r: seq<nat>, base: seq<nat>, k: nat)
    requires k < |r|
    ensures r <= base ==> r[k] in base
  {
  }

  /** An applied append leaves the list a gap-free prefix of the log it was reset from exactly when the
      rows arrived since then were no more than the rows loaded. */
  lemma AppendIsGapFree(base: seq<nat>, log: seq<nat>, loaded: seq<nat>)
    requires Distinct(log) && Older(base, log) && loaded <= base
    ensures AppendPage(loaded, PageAt(log, |loaded|)) <= base <==> |log| - |base| <= |loaded|
  {
    if |log| - |base| <= |loaded| {
      AppendWithinLoaded(base, log, loaded);
    } else {
      AppendBeyondLoaded(base, log, loaded);
    }
  }

  /** A list that is out of step with the log stays so however it is extended. */
  lemma NoWayBack(loaded: seq<nat>, page: seq<nat>, base: seq<nat>)
    requires !(loaded <= base)
    ensures !(AppendPage(loaded, page) <= base)
  {
  }

  /** Delivering the newest request's reply. */
  lemma AppliedDelivery(s: System, reply: Reply)
    requires Inv(s) && reply in s.replies && reply.request.number == s.client.newest
    ensures var t := After(s, Deliver(reply));
            && Distinct(t.client.loaded) && Older(t.base, t.log)
            && (t.kept <==> t.client.loaded <= t.base)
            && (forall x :: x in t.client.loaded ==> x in reply.log)
            && (reply.request.append ==> reply.request.offset == |s.client.loaded|)
  {
    var t := After(s, Deliver(reply));
    SuffixDistinct(reply.log, s.log);
    PageDistinct(reply.log, reply.request.offset);
    PageMembers(reply.log, reply.request.offset);
    OlderMembers(s.latest, reply.log);
    if reply.request.append {
      AppendDistinct(s.client.loaded, reply.page);
      if s.kept {
        AppendIsGapFree(s.base, reply.log, s.client.loaded);
      } else {
        NoWayBack(s.client.loaded, reply.page, s.base);
      }
    }
  }

  lemma StepKeepsInv(s: System, e: Event)
    requires Inv(s) && Enabled(s, e)
    ensures Inv(After(s, e))
  {
    match e
    case Arrive(id) => ArriveKeepsInv(s, id);
    case Load(append) => LoadKeepsInv(s, append);
    case Serve(request) => ServeKeepsInv(s, request);
    case Deliver(reply) => DeliverKeepsInv(s, reply);
    case Fail(reply) => FailKeepsInv(s, reply);
    case Lose(request) => LoseKeepsInv(s, request);
  }

  lemma LoadKeepsInv(s: System, append: bool)
    requires Inv(s)
    ensures Inv(After(s, Load(append)))
  {
    hide Distinct, AppendPage, PageAt, Older;
  }

  lemma ServeKeepsInv(s: System, request: Request)
    requires Inv(s) && request in s.waiting
    ensures Inv(After(s, Serve(request)))
  {
    hide Distinct, AppendPage, PageAt;
  }

  lemma DeliverKeepsInv(s: System, reply: Reply)
    requires Inv(s) && reply in s.replies
    ensures Inv(After(s, Deliver(reply)))
  {
    hide Distinct, AppendPage, PageAt, Older;
    if reply.request.number == s.client.newest {
      AppliedDelivery(s, reply);
    }
  }

  lemma FailKeepsInv(s: System, reply: Reply)
    requires Inv(s) && reply in s.replies
    ensures Inv(After(s, Fail(reply)))
  {
    hide Distinct, AppendPage, PageAt, Older;
  }

  lemma LoseKeepsInv(s: System, request: Request)
    requires Inv(s) && request in s.waiting
    ensures Inv(After(s, Lose(request)))
  {
    hide Distinct, AppendPage, PageAt, Older;
  }

  lemma ArriveKeepsInv(s: System, id: nat)
    requires Inv(s) && id !in s.log
    ensures Inv(After(s, Arrive(id)))
  {
    var t := After(s, Arrive(id));
    forall a | Older(a, s.log) ensures Older(a, t.log) {
      assert t.log[|t.log| - |a|..] == s.log[|s.log| - |a|..];
    }
    forall i, j | 0 <= i < j < |t.log| ensures t.log[i] != t.log[j] {
      assert t.log[j] == s.log[j - 1];
    }
  }

  lemma {:induction false} RunKeepsInv(s: System, events: seq<Event>, t: System)
    requires Initial(s) && Reaches(s, events, t)
    ensures Inv(t)
    decreases |events|
  {
    hide Inv, After, Enabled;
    if |events| == 0 {
      InitialInv(s);
    } else {
      var m := |events| - 1;
      var u :| Reaches(s, events[..m], u) && Enabled(u, events[m]) && After(u, events[m]) == t;
      RunKeepsInv(s, events[..m], u);
      StepKeepsInv(u, events[m]);
    }
  }

  lemma InitialInv(s: System)
    requires Initial(s)
    ensures Inv(s)
  {
  }

  /** In every run, whatever is lost or reordered: ids on screen never repeat; a reply that is applied
      as an append was requested at the length the list still has; and the list is a gap-free prefix
      of the log as of the last applied reset exactly when, at every append applied since, the rows
      arrived since that reset were no more than the rows loaded. */
  lemma RunsAreSafe(s: System, events: seq<Event>, t: System)
    requires Initial(s) && Reaches(s, events, t)
    ensures Distinct(t.client.loaded)
    ensures forall p :: p in t.replies && p.request.number == t.client.newest && p.request.append ==>
      p.request.offset == |t.client.loaded|
    ensures t.kept <==> t.client.loaded <= t.base
    ensures Older(t.base, t.log)
  {
    RunKeepsInv(s, events, t);
  }

  // ---- what the total says ----

  ghost function Members(s: seq<nat>): set<nat> {
    set x | x in s
  }

  lemma {:induction false} MembersOf(s: seq<nat>)
    requires Distinct(s)
    ensures |Members(s)| == |s|
  {
    if |s| > 0 {
      var m := |s| - 1;
      var before := s[..m];
      MembersOf(before);
      assert s == before + [s[m]];
      assert s[m] !in before;
      assert Members(s) == Members(before) + {s[m]};
    }
  }

  /** The rows of a log that are not on screen. */
  ghost function Missing(log: seq<nat>, loaded: seq<nat>): set<nat> {
    set x | x in log && x !in loaded
  }

  lemma MissingCount(log: seq<nat>, loaded: seq<nat>)
    requires Distinct(log) && Distinct(loaded) && forall x :: x in loaded ==> x in log
    ensures |Missing(log, loaded)| == |log| - |loaded|
  {
    MembersOf(log);
    MembersOf(loaded);
    assert Members(log) == Missing(log, loaded) + Members(loaded);
  }

  /** In every run: the total is the length of the log with which the last applied reply was cut, reset
      or append, and 0 before any; and what it exceeds the rows on screen by, which is what the button
      says is left, is the number of that log's rows not on screen. */
  lemma TotalCounts(s: System, events: seq<Event>, t: System)
    requires Initial(s) && Reaches(s, events, t)
    ensures t.client.total == |t.latest| && Older(t.latest, t.log)
    ensures t.client.total - |t.client.loaded| == |Missing(t.latest, t.client.loaded)|
  {
    hide Reaches;
    RunKeepsInv(s, events, t);
    assert Inv(t);
    SuffixDistinct(t.latest, t.log);
    MissingCount(t.latest, t.client.loaded);
  }

  /** With no rows arrived since, some row of the server's log is not on screen exactly when the total
      exceeds the rows that are, so the button is hidden exactly when nothing is missing. */
  lemma ButtonShowsWhatIsLeft(s: System, events: seq<Event>, t: System)
    requires Initial(s) && Reaches(s, events, t) && t.latest == t.log
    ensures t.client.total > |t.client.loaded| <==> exists x :: x in t.log && x !in t.client.loaded
  {
    hide Reaches;
    TotalCounts(s, events, t);
    if x :| x in t.log && x !in t.client.loaded {
      assert x in Missing(t.log, t.client.loaded);
    } else {
      assert Missing(t.log, t.client.loaded) == {};
    }
  }

  /** What one more page brings, while the list is a prefix of the log of its reset and the rows arrived
      since are no more than it has: the rows that follow it, unless fifty or more have arrived. Then the
      page holds nothing but rows on screen, however often it is asked for. */
  lemma ShowMoreBrings(base: seq<nat>, log: seq<nat>, loaded: seq<nat>)
    requires Distinct(log) && Older(base, log) && loaded <= base && |log| - |base| <= |loaded|
    ensures var after, arrived := AppendPage(loaded, PageAt(log, |loaded|)), |log| - |base|;
            && (arrived >= 50 ==> after == loaded)
            && (arrived < 50 ==> after == base[..Max(|loaded|, Min(|base|, |loaded| + 50 - arrived))])
            && (after != loaded <==> arrived < 50 && |loaded| < |base|)
  {
    hide Distinct, AppendPage, PageAt, Older;
    AppendWithinLoaded(base, log, loaded);
  }

  // ---- pressing Show more ----

  lemma OneMore(s: System, events: seq<Event>, t: System, e: Event)
    requires Reaches(s, events, t) && Enabled(t, e)
    ensures Reaches(s, events + [e], After(t, e))
  {
    hide After, Enabled;
    assert (events + [e])[..|events|] == events;
  }

  lemma OneMoreTo(s: System, events: seq<Event>, t: System, e: Event, u: System, more: seq<Event>)
    requires Reaches(s, events, t) && Enabled(t, e) && After(t, e) == u && more == events + [e]
    ensures Reaches(s, more, u)
  {
    hide Reaches, After, Enabled;
    OneMore(s, events, t, e);
  }

  /** Show more is pressed and its reply arrives, with no rows arriving meanwhile. */
  function Press(t: System): seq<Event> {
    var request := Request(t.client.newest + 1, true, |t.client.loaded|);
    [Load(true), Serve(request), Deliver(Reply(request, PageAt(t.log, request.offset), t.log))]
  }

  /** The state after that. */
  ghost function Pressed(t: System): System {
    var request := Request(t.client.newest + 1, true, |t.client.loaded|);
    var loaded := AppendPage(t.client.loaded, PageAt(t.log, request.offset));
    t.(client := Client(loaded, |t.log|, request.number),
       waiting := t.waiting - {request}, replies := t.replies - {Reply(request, PageAt(t.log, request.offset), t.log)},
       latest := t.log, kept := t.kept && |t.log| <= |t.base| + |t.client.loaded|)
  }

  lemma PressReaches(s: System, events: seq<Event>, t: System)
    requires Reaches(s, events, t)
    ensures Reaches(s, events + Press(t), Pressed(t))
  {
    hide Reaches, AppendPage, PageAt;
    var request := Request(t.client.newest + 1, true, |t.client.loaded|);
    var reply := Reply(request, PageAt(t.log, request.offset), t.log);
    var t1 := After(t, Load(true));
    var t2 := After(t1, Serve(request));
    OneMoreTo(s, events, t, Load(true), t1, events + [Load(true)]);
    OneMoreTo(s, events + [Load(true)], t1, Serve(request), t2, events + [Load(true), Serve(request)]);
    assert t2.waiting == t.waiting - {request};
    assert t2.replies - {reply} == t.replies - {reply};
    OneMoreTo(s, events + [Load(true), Serve(request)], t2, Deliver(reply), Pressed(t), events + Press(t));
  }

  /** However often Show more is pressed: while the list is a prefix of its log, each press brings fifty
      rows less one for each row arrived since the reset, to the end of that log. From fifty arrivals on
      it brings none, ever, though the total says that rows are left. */
  lemma {:induction false} PressRepeatedly(s: System, events: seq<Event>, t: System, k: nat)
    returns (more: seq<Event>, u: System)
    requires Initial(s) && Reaches(s, events, t) && t.kept && |t.log| - |t.base| <= |t.client.loaded|
    ensures Reaches(s, events + more, u) && u.log == t.log && u.base == t.base && u.kept
    ensures k > 0 ==> u.client.total == |t.log|
    ensures |t.client.loaded| <= |t.base| <= |t.log|
    ensures u.client.loaded == t.base[..Extent(|t.client.loaded|, |t.base|, |t.log| - |t.base|, k)]
  {
    hide Reaches, Initial, Extent, Distinct, Press, Pressed;
    var arrived, n := |t.log| - |t.base|, |t.client.loaded|;
    RunDistinct(s, events, t);
    ExtentStep(n, |t.base|, arrived, k);
    if k == 0 {
      more, u := [], t;
      assert events + [] == events;
      assert t.client.loaded == t.base[..n];
    } else {
      var before, v := PressRepeatedly(s, events, t, k - 1);
      PressOnce(s, events + before, v);
      more, u := before + Press(v), Pressed(v);
      assert events + before + Press(v) == events + more;
    }
  }

  lemma PressOnce(s: System, events: seq<Event>, t: System)
    requires Initial(s) && Reaches(s, events, t) && t.kept && |t.log| - |t.base| <= |t.client.loaded|
    ensures var u, arrived, n := Pressed(t), |t.log| - |t.base|, |t.client.loaded|;
            && Reaches(s, events + Press(t), u) && u.log == t.log && u.base == t.base && u.kept
            && u.client.total == |t.log| && n <= |t.base|
            && u.client.loaded == t.base[..if arrived >= 50 then n else Max(n, Min(|t.base|, n + 50 - arrived))]
  {
    hide Reaches, AppendPage, PageAt, Initial, Distinct, Press;
    RunDistinct(s, events, t);
    ShowMoreBrings(t.base, t.log, t.client.loaded);
    PressReaches(s, events, t);
    assert t.client.loaded == t.base[..|t.client.loaded|];
  }

  /** How many of a log's rows k presses leave on screen. */
  function Extent(n: nat, size: nat, arrived: nat, k: nat): (m: nat)
    requires n <= size
    ensures n <= m <= size
  {
    if arrived >= 50 then n else Min(size, n + k * (50 - arrived))
  }

  lemma ExtentStep(n: nat, size: nat, arrived: nat, k: nat)
    requires n <= size
    ensures Extent(n, size, arrived, 0) == n
    ensures k > 0 ==> var m := Extent(n, size, arrived, k - 1);
      Extent(n, size, arrived, k) == if arrived >= 50 then m else Max(m, Min(size, m + 50 - arrived))
  {
    if k > 0 && arrived < 50 {
      assert k * (50 - arrived) == (k - 1) * (50 - arrived) + (50 - arrived);
    }
  }

  lemma RunDistinct(s: System, events: seq<Event>, t: System)
    requires Initial(s) && Reaches(s, events, t)
    ensures Distinct(t.log) && Older(t.base, t.log) && (t.kept <==> t.client.loaded <= t.base)
  {
    hide Reaches;
    RunKeepsInv(s, events, t);
  }

  // ---- the client's variables along a run ----

  /** The client's part of an event, done by the source's own load. */
  method Perform(ledger: Ledger, ghost s: System, e: Event)
    requires Enabled(s, e) && ledger.State() == s.client
    modifies ledger
    ensures ledger.State() == After(s, e).client
  {
    match e
    case Load(append) =>
      var request := ledger.Load(append);
      assert request in After(s, e).waiting;
    case Deliver(reply) =>
      var applied := ledger.Land(reply.request, Rows(Some(reply.page), Some(|reply.log|)));
    case Fail(reply) =>
      var applied := ledger.Land(reply.request, Failed);
    case _ =>
  }

  /** Driven through any run, the ledger's variables are the client's of the run. */
  method Drive(ledger: Ledger, ghost s: System, events: seq<Event>, ghost t: System)
    requires Initial(s) && Reaches(s, events, t) && ledger.State() == s.client
    modifies ledger
    ensures ledger.State() == t.client
    ensures Distinct(ledger.rows)
    ensures t.kept <==> ledger.rows <= t.base
    ensures ledger.total == |t.latest| && ledger.total - |ledger.rows| == |Missing(t.latest, ledger.rows)|
    decreases |events|
  {
    hide After, Enabled, Distinct;
    if |events| > 0 {
      var m := |events| - 1;
      ghost var u :| Reaches(s, events[..m], u) && Enabled(u, events[m]) && After(u, events[m]) == t;
      Drive(ledger, s, events[..m], u);
      Perform(ledger, u, events[m]);
    }
    RunsAreSafe(s, events, t);
    TotalCounts(s, events, t);
  }

  // ---- a run that ends with a row out of place ----

  function Arrivals(first: nat, n: nat): seq<Event> {
    seq(n, i requires 0 <= i < n => Arrive(first + i))
  }

  /** A log at whose front n rows with ids from `first` on have arrived. */
  function Grown(log: seq<nat>, first: nat, n: nat): seq<nat> {
    seq(n, i requires 0 <= i < n => first + n - 1 - i) + log
  }

  lemma {:induction false} ArriveAll(s: System, events: seq<Event>, t: System, first: nat, n: nat)
    requires Reaches(s, events, t) && forall id :: id in t.log ==> id < first
    ensures Reaches(s, events + Arrivals(first, n), t.(log := Grown(t.log, first, n)))
  {
    hide Reaches;
    if n == 0 {
      assert events + Arrivals(first, 0) == events;
      assert Grown(t.log, first, 0) == t.log;
    } else {
      ArriveAll(s, events, t, first, n - 1);
      var u := t.(log := Grown(t.log, first, n - 1));
      var e := Arrive(first + n - 1);
      assert first + n - 1 !in u.log;
      OneMore(s, events + Arrivals(first, n - 1), u, e);
      assert events + Arrivals(first, n - 1) + [e] == events + Arrivals(first, n);
      assert After(u, e).log == Grown(t.log, first, n);
    }
  }

  /** Sixty rows on the server. */
  const LOG: seq<nat> := seq(60, i => i)

  const EMPTY: System := System(LOG, Client([], 0, 0), {}, {}, [], true, [])

  const RESET: Request := Request(1, false, 0)
  const MORE: Request := Request(2, true, PAGE)

  /** A first page is loaded, more are asked for, and 51 rows arrive before that request is served. */
  const OVERTAKEN: seq<Event> :=
    [Load(false), Serve(RESET), Deliver(Reply(RESET, LOG[..PAGE], LOG)), Load(true)] + Arrivals(60, 51)
    + [Serve(MORE), Deliver(Reply(MORE, [60] + LOG[..PAGE - 1], Grown(LOG, 60, 51)))]

  /** The first page's fifty rows are then followed by the oldest of the new ones, while the ten rows
      left of the log are missing. */
  lemma OvertakenRun()
    ensures Initial(EMPTY)
    ensures exists t ::
      && Reaches(EMPTY, OVERTAKEN, t)
      && t.client.loaded == LOG[..PAGE] + [60] && t.base == LOG && !(t.client.loaded <= t.base)
  {
    hide Reaches, Grown, Arrivals, PageAt, AppendPage;
    var log, page := Grown(LOG, 60, 51), [60] + LOG[..PAGE - 1];
    var reply := Reply(MORE, page, log);
    var before := [Load(false), Serve(RESET), Deliver(Reply(RESET, LOG[..PAGE], LOG)), Load(true)];
    var client := Client(LOG[..PAGE], 60, 2);
    Loaded();
    ArriveAll(EMPTY, before, System(LOG, client, {MORE}, {}, LOG, true, LOG), 60, 51);
    LatePage();
    var events := before + Arrivals(60, 51);
    var u := System(log, client, {}, {reply}, LOG, true, LOG);
    OneMoreTo(EMPTY, events, System(log, client, {MORE}, {}, LOG, true, LOG), Serve(MORE), u, events + [Serve(MORE)]);
    LateAppend();
    var v := System(log, Client(LOG[..PAGE] + [60], |log|, 2), {}, {}, LOG, After(u, Deliver(reply)).kept, log);
    assert events + [Serve(MORE)] + [Deliver(reply)] == OVERTAKEN;
    OneMoreTo(EMPTY, events + [Serve(MORE)], u, Deliver(reply), v, OVERTAKEN);
    assert v.client.loaded[PAGE] != LOG[PAGE];
  }

  /** With fifty arrivals in place of 51 nothing is out of place, but nothing more can be had: after any
      number of presses the first page is all there is on screen, ten rows of its log are missing, and
      the button stays. */
  lemma StalledRun(k: nat) returns (events: seq<Event>, u: System)
    ensures Initial(EMPTY) && Reaches(EMPTY, events, u)
    ensures u.client.loaded == LOG[..PAGE] && u.base == LOG && |LOG| == 60
    ensures k > 0 ==> u.client.total == 110
  {
    hide Reaches, Grown, Arrivals, PageAt, AppendPage, Extent;
    var before := [Load(false), Serve(RESET), Deliver(Reply(RESET, LOG[..PAGE], LOG)), Load(true)];
    var log := Grown(LOG, 60, 50);
    var t := System(log, Client(LOG[..PAGE], 60, 2), {MORE}, {}, LOG, true, LOG);
    Loaded();
    ArriveAll(EMPTY, before, System(LOG, t.client, {MORE}, {}, LOG, true, LOG), 60, 50);
    assert |log| == 110 by { GrownSize(LOG, 60, 50); }
    var more;
    more, u := PressRepeatedly(EMPTY, before + Arrivals(60, 50), t, k);
    events := before + Arrivals(60, 50) + more;
    StalledExtent(k);
  }

  lemma GrownSize(log: seq<nat>, first: nat, n: nat)
    ensures |Grown(log, first, n)| == n + |log|
  {
  }

  lemma StalledExtent(k: nat)
    ensures Extent(50, 60, 50, k) == 50
  {
  }

  /** Up to the second request. */
  lemma Loaded()
    ensures Reaches(EMPTY, [Load(false), Serve(RESET), Deliver(Reply(RESET, LOG[..PAGE], LOG)), Load(true)],
                    System(LOG, Client(LOG[..PAGE], 60, 2), {MORE}, {}, LOG, true, LOG))
  {
    hide Reaches;
    var reply := Reply(RESET, LOG[..PAGE], LOG);
    var s1 := System(LOG, Client([], 0, 1), {RESET}, {}, [], true, []);
    var s2 := System(LOG, Client([], 0, 1), {}, {reply}, [], true, []);
    var s3 := System(LOG, Client(LOG[..PAGE], 60, 1), {}, {}, LOG, true, LOG);
    var s4 := System(LOG, Client(LOG[..PAGE], 60, 2), {MORE}, {}, LOG, true, LOG);
    NoEvents(EMPTY);
    OneMoreTo(EMPTY, [], EMPTY, Load(false), s1, [Load(false)]);
    OneMoreTo(EMPTY, [Load(false)], s1, Serve(RESET), s2, [Load(false), Serve(RESET)]);
    OneMoreTo(EMPTY, [Load(false), Serve(RESET)], s2, Deliver(reply), s3, [Load(false), Serve(RESET), Deliver(reply)]);
    OneMoreTo(EMPTY, [Load(false), Serve(RESET), Deliver(reply)], s3, Load(true), s4,
              [Load(false), Serve(RESET), Deliver(reply), Load(true)]);
  }

  lemma NoEvents(s: System)
    ensures Reaches(s, [], s)
  {
  }

  lemma LatePage()
    ensures PageAt(Grown(LOG, 60, 51), PAGE) == [60] + LOG[..PAGE - 1]
  {
  }

  lemma LateAppend()
    ensures AppendPage(LOG[..PAGE], [60] + LOG[..PAGE - 1]) == LOG[..PAGE] + [60]
  {
    var seen, held := LOG[..PAGE], LOG[..PAGE - 1];
    forall x | x in held ensures x in seen {
      var i :| 0 <= i < |held| && held[i] == x;
      assert seen[i] == x;
    }
    UnseenSplit(held, [], seen);
    assert held + [] == held;
    assert ([60] + held)[1..] == held;
  }
}
