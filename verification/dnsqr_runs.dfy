/** What a run of the matcher reports: every query that leaves and every response that is read. */
module DnsqrRuns {
  import opened Wrappers
  import opened DnsqrSpec

  // ---------- Single calls of a run ----------

  /** Who waits when a packet is read in a call: all but a query that was trimmed first. */
  function Waiting(c: Config, s: Status): seq<DnsQR> {
    if Expired(c, s) then s.queue[1..] else s.queue
  }

  /** Whether a call gets as far as reading. */
  predicate Asks(c: Config, s: Status) {
    if Expired(c, s) then c.filtered(s.queue[0]) else !s.stop
  }

  predicate Filtered(c: Config, m: Message) {
    match m
    case Unanswered(q) => c.filtered(q)
    case Answered(q, r) => c.filteredPair(q, r)
    case Unsolicited(r) => c.filteredResponse(r)
    case Other => false
  }

  function Shown(c: Config, m: Message): Outcome {
    if Filtered(c, m) then Again else Emit(m)
  }

  lemma {:induction false} RunAt(c: Config, s: Status, rs: seq<Read>, i: nat)
    requires i < |rs|
    ensures var t := PktToPayload(c, Run(c, s, rs[..i]).s, rs[i]);
            Run(c, s, rs).outs[i] == t.out && Run(c, s, rs[..i + 1]).s == t.s
    decreases i
  {
    hide PktToPayload;
    var t := PktToPayload(c, s, rs[0]);
    if i == 0 {
      assert rs[..0] == [] && rs[..1][1..] == [] && rs[..1][0] == rs[0];
    } else {
      RunAt(c, t.s, rs[1..], i - 1);
      assert rs[1..][..i - 1] == rs[..i][1..] && rs[1..][..i] == rs[..i + 1][1..];
      RunHead(c, s, rs[..i]);
      RunHead(c, s, rs[..i + 1]);
    }
  }

  /** A response that is read in any call of a run: if waiting queries belong to it, the oldest of
  them leaves and is reported with it; otherwise it is reported as unsolicited. */
  lemma ResponseIsReported(c: Config, s: Status, rs: seq<Read>, i: nat)
    requires i < |rs| && rs[i].Got? && rs[i].packet.Response? && Asks(c, Run(c, s, rs[..i]).s)
    ensures var r, rcode := rs[i].packet.r, rs[i].packet.rcode;
            var waiting, after, out := Waiting(c, Run(c, s, rs[..i]).s), Run(c, s, rs[..i + 1]).s, Run(c, s, rs).outs[i];
            && after.now == rs[i].sec
            && (NoneAgrees(waiting, r, rcode) ==> out == Shown(c, Unsolicited(r)) && after.queue == waiting)
            && forall p: nat :: OldestAgreeing(waiting, r, rcode, p) ==>
                             out == Shown(c, Answered(waiting[p], r)) && after.queue == waiting[..p] + waiting[p + 1..]
  {
    hide Agrees, Run, Waiting, Expired, PktToPayload, OldestAgreeing, NoneAgrees;
    RunAt(c, s, rs, i);
    var b := Run(c, s, rs[..i]).s;
    TurnForResponse(c, b, rs[i]);
  }

  lemma TurnForResponse(c: Config, b: Status, read: Read)
    requires read.Got? && read.packet.Response? && Asks(c, b)
    ensures var r, rcode, waiting, t := read.packet.r, read.packet.rcode, Waiting(c, b), PktToPayload(c, b, read);
            && t.s.now == read.sec
            && (NoneAgrees(waiting, r, rcode) ==> t.out == Shown(c, Unsolicited(r)) && t.s.queue == waiting)
            && forall p: nat :: OldestAgreeing(waiting, r, rcode, p) ==>
                                  t.out == Shown(c, Answered(waiting[p], r)) && t.s.queue == waiting[..p] + waiting[p + 1..]
  {
    hide Agrees, Expired;
    var r, rcode, waiting := read.packet.r, read.packet.rcode, Waiting(c, b);
    OldestMatchMeans(waiting, r, rcode);
    var p := OldestMatch(waiting, r, rcode);
    forall q: nat | OldestAgreeing(waiting, r, rcode, q)
      ensures p == q
    {
      if p < |waiting| {
        OnlyOneOldest(waiting, r, rcode, p, q);
      }
    }
  }

  /** Everything else that is read in a call of a run. */
  lemma ReadIsTaken(c: Config, s: Status, rs: seq<Read>, i: nat)
    requires i < |rs| && Asks(c, Run(c, s, rs[..i]).s)
    ensures var b, after, out := Run(c, s, rs[..i]).s, Run(c, s, rs[..i + 1]).s, Run(c, s, rs).outs[i];
            var waiting := Waiting(c, b);
            match rs[i]
            case EndOfInput => out == Again && after == Status(waiting, true, b.now)
            case ReadError(code) => out == Error(code) && after == Status(waiting, b.stop, b.now)
            case Got(Malformed(code), sec) => out == Error(code) && after == Status(waiting, b.stop, b.now)
            case Got(Ignored(code), sec) => out == Error(code) && after == Status(waiting, b.stop, sec)
            case Got(PassedOn, sec) => out == Emit(Other) && after == Status(waiting, b.stop, sec)
            case Got(Query(q), sec) => out == Again && after == Status(waiting + [q], b.stop, sec)
            case Got(Response(r, rcode), sec) => after.stop == b.stop && after.now == sec
  {
    hide Run, Expired, OldestMatch;
    RunAt(c, s, rs, i);
  }

  /** A call that reads nothing reports the oldest query, or the end. */
  lemma NothingIsRead(c: Config, s: Status, rs: seq<Read>, i: nat)
    requires i < |rs| && !Asks(c, Run(c, s, rs[..i]).s)
    ensures var b, after, out := Run(c, s, rs[..i]).s, Run(c, s, rs[..i + 1]).s, Run(c, s, rs).outs[i];
            if b.queue == [] then out == Eof && after == b && b.stop
            else out == Emit(Unanswered(b.queue[0])) && after == Status(b.queue[1..], b.stop, b.now)
  {
    hide Run, ProcessRead;
    RunAt(c, s, rs, i);
  }

  // ---------- All that is reported ----------

  /** The messages that calls returned. */
  function Emitted(outs: seq<Outcome>): seq<Message> {
    if outs == [] then []
    else (if outs[0].Emit? then [outs[0].m] else []) + Emitted(outs[1..])
  }

  /** Messages without those that a filter drops. */
  function Unfiltered(c: Config, ms: seq<Message>): seq<Message> {
    if ms == [] then [] else (if Filtered(c, ms[0]) then [] else [ms[0]]) + Unfiltered(c, ms[1..])
  }

  function QueryIn(m: Message): seq<DnsQR> {
    match m
    case Unanswered(q) => [q]
    case Answered(q, _) => [q]
    case _ => []
  }

  function ResponseIn(m: Message): seq<DnsQR> {
    match m
    case Answered(_, r) => [r]
    case Unsolicited(r) => [r]
    case _ => []
  }

  function Queries(ms: seq<Message>): seq<DnsQR> {
    if ms == [] then [] else QueryIn(ms[0]) + Queries(ms[1..])
  }

  function Responses(ms: seq<Message>): seq<DnsQR> {
    if ms == [] then [] else ResponseIn(ms[0]) + Responses(ms[1..])
  }

  function Others(ms: seq<Message>): nat {
    if ms == [] then 0 else (if ms[0] == Other then 1 else 0) + Others(ms[1..])
  }

  lemma Grouped<T>(a: seq<T>, b: seq<T>, c: seq<T>)
    ensures a + (b + c) == (a + b) + c
  {
  }

  lemma {:induction false} JoinUnfiltered(c: Config, ms: seq<Message>, ns: seq<Message>)
    ensures Unfiltered(c, ms + ns) == Unfiltered(c, ms) + Unfiltered(c, ns)
  {
    hide Filtered;
    if ms == [] {
      assert ms + ns == ns;
    } else {
      JoinUnfiltered(c, ms[1..], ns);
      var all := ms + ns;
      assert all[0] == ms[0] && all[1..] == ms[1..] + ns;
      Grouped(if Filtered(c, ms[0]) then [] else [ms[0]], Unfiltered(c, ms[1..]), Unfiltered(c, ns));
    }
  }

  lemma {:induction false} JoinQueries(ms: seq<Message>, ns: seq<Message>)
    ensures Queries(ms + ns) == Queries(ms) + Queries(ns)
  {
    hide QueryIn;
    if ms == [] {
      assert ms + ns == ns;
    } else {
      JoinQueries(ms[1..], ns);
      var all := ms + ns;
      assert all[0] == ms[0] && all[1..] == ms[1..] + ns;
      Grouped(QueryIn(ms[0]), Queries(ms[1..]), Queries(ns));
    }
  }

  lemma {:induction false} JoinResponses(ms: seq<Message>, ns: seq<Message>)
    ensures Responses(ms + ns) == Responses(ms) + Responses(ns)
  {
    hide ResponseIn;
    if ms == [] {
      assert ms + ns == ns;
    } else {
      JoinResponses(ms[1..], ns);
      var all := ms + ns;
      assert all[0] == ms[0] && all[1..] == ms[1..] + ns;
      Grouped(ResponseIn(ms[0]), Responses(ms[1..]), Responses(ns));
    }
  }

  lemma {:induction false} JoinOthers(ms: seq<Message>, ns: seq<Message>)
    ensures Others(ms + ns) == Others(ms) + Others(ns)
  {
    if ms == [] {
      assert ms + ns == ns;
    } else {
      JoinOthers(ms[1..], ns);
      assert (ms + ns)[1..] == ms[1..] + ns;
    }
  }

  lemma Join(c: Config, ms: seq<Message>, ns: seq<Message>)
    ensures Unfiltered(c, ms + ns) == Unfiltered(c, ms) + Unfiltered(c, ns)
    ensures Queries(ms + ns) == Queries(ms) + Queries(ns) && Responses(ms + ns) == Responses(ms) + Responses(ns)
    ensures Others(ms + ns) == Others(ms) + Others(ns)
  {
    JoinUnfiltered(c, ms, ns);
    JoinQueries(ms, ns);
    JoinResponses(ms, ns);
    JoinOthers(ms, ns);
  }

  /** What the packets are that a run reads. */
  datatype Heard = Heard(queries: seq<DnsQR>, responses: seq<DnsQR>, others: nat)

  function HeardIn(c: Config, s: Status, r: Read): Heard {
    if !Asks(c, s) || !r.Got? then Heard([], [], 0)
    else
      match r.packet
      case Query(q) => Heard([q], [], 0)
      case Response(r, _) => Heard([], [r], 0)
      case PassedOn => Heard([], [], 1)
      case _ => Heard([], [], 0)
  }

  function HeardBy(c: Config, s: Status, rs: seq<Read>): Heard
    decreases |rs|
  {
    if rs == [] then Heard([], [], 0)
    else
      var h, g := HeardIn(c, s, rs[0]), HeardBy(c, PktToPayload(c, s, rs[0]).s, rs[1..]);
      Heard(h.queries + g.queries, h.responses + g.responses, h.others + g.others)
  }

  /** Messages are due for the queries that left, for the responses read, and for what is passed on. */
  ghost predicate Accounts(due: seq<Message>, left: seq<DnsQR>, h: Heard) {
    Queries(due) == left && Responses(due) == h.responses && Others(due) == h.others
  }

  lemma TurnReports(c: Config, s: Status, r: Read) returns (due: seq<Message>)
    ensures var t := PktToPayload(c, s, r);
            && Unfiltered(c, due) == (if t.out.Emit? then [t.out.m] else [])
            && Accounts(due, t.left, HeardIn(c, s, r))
  {
    var rest := s.(queue := Waiting(c, s));
    hide OldestMatch, Eq, Without, ProcessRead;
    due := [];
    if Asks(c, s) {
      due := CallReports(c, rest, r);
    }
    if Expired(c, s) {
      var q := s.queue[0];
      TrimReports(c, q, due);
      due := [Unanswered(q)] + due;
    }
  }

  lemma TurnEnters(c: Config, s: Status, r: Read)
    ensures PktToPayload(c, s, r).entered == HeardIn(c, s, r).queries
  {
    hide ProcessRead;
  }

  lemma TrimReports(c: Config, q: DnsQR, ms: seq<Message>)
    ensures var due := [Unanswered(q)] + ms;
            && Unfiltered(c, due) == (if c.filtered(q) then [] else [Unanswered(q)]) + Unfiltered(c, ms)
            && Queries(due) == [q] + Queries(ms) && Responses(due) == Responses(ms) && Others(due) == Others(ms)
  {
    Join(c, [Unanswered(q)], ms);
  }

  lemma CallReports(c: Config, s: Status, r: Read) returns (due: seq<Message>)
    ensures var call := ProcessRead(c, s, r);
            && Unfiltered(c, due) == (if call.out.Emit? then [call.out.m] else [])
            && Queries(due) == Listed(call.left)
            && Responses(due) == (if r.Got? && r.packet.Response? then [r.packet.r] else [])
            && Others(due) == if r.Got? && r.packet.PassedOn? then 1 else 0
  {
    hide OldestMatch, Without;
    due := [];
    if r.Got? && r.packet.PassedOn? {
      due := [Other];
    } else if r.Got? && r.packet.Response? {
      var p := OldestMatch(s.queue, r.packet.r, r.packet.rcode);
      due := [if p < |s.queue| then Answered(s.queue[p], r.packet.r) else Unsolicited(r.packet.r)];
    }
  }

  /** Over any run there is a message for every query that leaves, with or without its response, in
  this order, and one for every response that is read; exactly those are returned that no filter
  drops. The queries that entered are those read. */
  lemma {:induction false} RunReports(c: Config, s: Status, rs: seq<Read>) returns (due: seq<Message>)
    ensures var h := Run(c, s, rs);
            && Emitted(h.outs) == Unfiltered(c, due)
            && Accounts(due, h.left, HeardBy(c, s, rs))
            && h.entered == HeardBy(c, s, rs).queries
    decreases |rs|
  {
    hide PktToPayload, HeardIn, Filtered;
    if rs == [] {
      due := [];
    } else {
      var t := PktToPayload(c, s, rs[0]);
      var first := TurnReports(c, s, rs[0]);
      TurnEnters(c, s, rs[0]);
      var second := RunReports(c, t.s, rs[1..]);
      due := first + second;
      Join(c, first, second);
      assert Run(c, s, rs).outs[1..] == Run(c, t.s, rs[1..]).outs;
    }
  }

  ghost predicate NoFilters(c: Config) {
    forall m :: !Filtered(c, m)
  }

  lemma {:induction false} NoneDropped(c: Config, ms: seq<Message>)
    requires NoFilters(c)
    ensures Unfiltered(c, ms) == ms
  {
    if ms != [] {
      NoneDropped(c, ms[1..]);
    }
  }

  /** Without filters the messages returned account for everything. */
  lemma RunReportsAll(c: Config, s: Status, rs: seq<Read>)
    requires NoFilters(c)
    ensures Accounts(Emitted(Run(c, s, rs).outs), Run(c, s, rs).left, HeardBy(c, s, rs))
  {
    hide Run, Emitted, Unfiltered, Accounts, NoFilters;
    var due := RunReports(c, s, rs);
    NoneDropped(c, due);
  }

  // ---------- When a query is given up ----------

  /** Queries wait in the order of their times, none of which is to come. */
  ghost predicate Dated(s: Status) {
    && (forall i, j :: 0 <= i < j < |s.queue| ==> s.queue[i].time <= s.queue[j].time)
    && (forall i :: 0 <= i < |s.queue| ==> s.queue[i].time <= s.now)
  }

  /** The clock does not run backwards, and a query has the time of its packet. */
  ghost predicate Clocked(rs: seq<Read>, start: int) {
    && (forall i :: 0 <= i < |rs| && rs[i].Got? ==> start <= rs[i].sec)
    && (forall i, j :: 0 <= i < j < |rs| && rs[i].Got? && rs[j].Got? ==> rs[i].sec <= rs[j].sec)
    && (forall i :: 0 <= i < |rs| && rs[i].Got? && rs[i].packet.Query? ==> rs[i].packet.q.time == rs[i].sec)
  }

  lemma TurnDated(c: Config, s: Status, r: Read)
    requires Dated(s) && (r.Got? ==> s.now <= r.sec && (r.packet.Query? ==> r.packet.q.time == r.sec))
    ensures var u := PktToPayload(c, s, r).s;
            Dated(u) && (u.now == s.now || (r.Got? && u.now == r.sec))
  {
    var rest := s.(queue := Waiting(c, s));
    assert Dated(rest);
    hide Expired;
    if Asks(c, s) {
      CallDated(c, rest, r);
    }
    hide ProcessRead, Dated;
  }

  lemma CallDated(c: Config, s: Status, r: Read)
    requires Dated(s) && (r.Got? ==> s.now <= r.sec && (r.packet.Query? ==> r.packet.q.time == r.sec))
    ensures var u := ProcessRead(c, s, r).s;
            Dated(u) && (u.now == s.now || (r.Got? && u.now == r.sec))
  {
    hide OldestMatch;
  }

  lemma {:induction false} RunDated(c: Config, s: Status, rs: seq<Read>)
    requires Dated(s) && Clocked(rs, s.now)
    ensures Dated(Run(c, s, rs).s)
    decreases |rs|
  {
    hide PktToPayload, Dated;
    if rs != [] {
      TurnDated(c, s, rs[0]);
      RunDated(c, PktToPayload(c, s, rs[0]).s, rs[1..]);
    }
  }

  /** Some query has waited for longer than the limit, there are too many, or input has ended. */
  ghost predicate Overdue(c: Config, s: Status) {
    && s.queue != []
    && (|s.queue| > c.maxValues || s.stop || exists k :: 0 <= k < |s.queue| && s.now - s.queue[k].time > c.queryTimeout)
  }

  /** After any run, a call gives up the query that has waited longest if and only if one is overdue. */
  lemma GivesUpOverdue(c: Config, s: Status, rs: seq<Read>, r: Read)
    requires Dated(s) && Clocked(rs, s.now) && !(r.Got? && r.packet.Response?)
    ensures var b := Run(c, s, rs).s;
            PktToPayload(c, b, r).left == if Overdue(c, b) then [b.queue[0]] else []
  {
    RunDated(c, s, rs);
    OverdueIsExpired(c, Run(c, s, rs).s);
    hide Run, Expired, Overdue;
  }

  lemma OverdueIsExpired(c: Config, s: Status)
    requires Dated(s)
    ensures Overdue(c, s) <==> Expired(c, s)
  {
  }
}
