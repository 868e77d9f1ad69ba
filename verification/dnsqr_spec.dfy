/** DNS messages as the matcher sees them, and the queue of unanswered queries that its table
and list are to behave like. */
module DnsqrSpec {
  import opened Wrappers
  import opened Words
  import opened Lookup3

  /** The fields of a query or response that the matcher looks at, and the rest of its contents. */
  datatype DnsQR = DnsQR(
    id: Half, proto: Half, queryPort: Half, responsePort: Half,
    queryIp: seq<Byte>, responseIp: seq<Byte>,
    qname: Option<seq<Byte>>, qtype: Half, qclass: Half,
    time: int, contents: seq<Byte>)

  /** Both addresses are IPv4, or both are IPv6. */
  predicate Addressed(d: DnsQR) {
    |d.queryIp| == |d.responseIp| && (|d.queryIp| == 4 || |d.queryIp| == 16)
  }

  predicate Eq6(d1: DnsQR, d2: DnsQR) {
    && d1.id == d2.id
    && d1.queryPort == d2.queryPort
    && d1.responsePort == d2.responsePort
    && d1.proto == d2.proto
    && d1.queryIp == d2.queryIp
    && d1.responseIp == d2.responseIp
  }

  predicate Eq9(d1: DnsQR, d2: DnsQR) {
    && Eq6(d1, d2)
    && d1.qname == d2.qname
    && d1.qtype == d2.qtype
    && d1.qclass == d2.qclass
  }

  const FORMERR: nat := 1
  const SERVFAIL: nat := 2
  const NOTIMP: nat := 4
  const REFUSED: nat := 5

  /** Messages match on nine fields if both carry a question; otherwise on six, and only if
  the response code is one that servers send without repeating the question. */
  predicate Eq(d1: DnsQR, d2: DnsQR, rcode: nat) {
    if d1.qname.Some? && d2.qname.Some? then Eq9(d1, d2)
    else rcode in {FORMERR, SERVFAIL, NOTIMP, REFUSED} && Eq6(d1, d2)
  }

  /** A message without what no match depends on. */
  function Conversation(d: DnsQR): DnsQR {
    d.(time := 0, contents := [])
  }

  /** The same without the question. */
  function Endpoints(d: DnsQR): DnsQR {
    d.(time := 0, contents := [], qname := None, qtype := 0, qclass := 0)
  }

  /** A query and a response belong together: everything but time and contents is the same, or, if
  a question is missing, everything but the question, in a response that reports a format error (1),
  a failure (2), an unknown kind of query (4) or a refusal (5). */
  predicate Agrees(d: DnsQR, q: DnsQR, rcode: nat) {
    if d.qname == None || q.qname == None then rcode in {1, 2, 4, 5} && Endpoints(d) == Endpoints(q)
    else Conversation(d) == Conversation(q)
  }

  /** What is compared: all that identifies the conversation and nothing else. */
  lemma EqMeans(d: DnsQR, q: DnsQR, rcode: nat)
    ensures Eq(d, q, rcode) <==> Agrees(d, q, rcode)
  {
  }

  /** Entry `p` is the oldest waiting query that belongs to `d`. */
  ghost predicate OldestAgreeing(queue: seq<DnsQR>, d: DnsQR, rcode: nat, p: nat) {
    p < |queue| && Agrees(d, queue[p], rcode) && forall i :: 0 <= i < p ==> !Agrees(d, queue[i], rcode)
  }

  ghost predicate NoneAgrees(queue: seq<DnsQR>, d: DnsQR, rcode: nat) {
    forall i :: 0 <= i < |queue| ==> !Agrees(d, queue[i], rcode)
  }

  lemma OldestMatchMeans(queue: seq<DnsQR>, d: DnsQR, rcode: nat)
    ensures var p := OldestMatch(queue, d, rcode);
            if p < |queue| then OldestAgreeing(queue, d, rcode, p) else NoneAgrees(queue, d, rcode)
  {
    hide Eq, Agrees;
    forall i | 0 <= i < |queue|
      ensures Eq(d, queue[i], rcode) <==> Agrees(d, queue[i], rcode)
    {
      EqMeans(d, queue[i], rcode);
    }
  }

  lemma OnlyOneOldest(queue: seq<DnsQR>, d: DnsQR, rcode: nat, p: nat, p': nat)
    requires OldestAgreeing(queue, d, rcode, p) && OldestAgreeing(queue, d, rcode, p')
    ensures p == p'
  {
    hide Agrees;
  }

  function Half2(x: Half): seq<Byte> {
    [x % 0x100, x / 0x100]
  }

  /** The hash key of a message: the packed key structure in memory order. */
  function KeyBytes(d: DnsQR): seq<Byte> {
    d.queryIp + d.responseIp + Half2(d.proto) + Half2(d.queryPort) + Half2(d.responsePort) + Half2(d.id)
  }

  /** Messages that match have the same key. */
  lemma MatchesHashAlike(d1: DnsQR, d2: DnsQR, rcode: nat)
    requires Eq(d1, d2, rcode)
    ensures KeyBytes(d1) == KeyBytes(d2) && HashLittle(KeyBytes(d1), 0) == HashLittle(KeyBytes(d2), 0)
  {
  }

  /** The key holds what all matches compare, and nothing else. */
  lemma KeyIsEndpoints(d1: DnsQR, d2: DnsQR)
    requires Addressed(d1) && Addressed(d2)
    ensures KeyBytes(d1) == KeyBytes(d2) <==> Endpoints(d1) == Endpoints(d2)
  {
    if KeyBytes(d1) == KeyBytes(d2) {
      var k, n := KeyBytes(d1), |d1.queryIp|;
      assert |k| == 2 * n + 8;
      KeyParts(d1, n);
      KeyParts(d2, n);
    }
  }

  function LowFirst(k: seq<Byte>, i: nat): nat
    requires i + 2 <= |k|
  {
    k[i] + 0x100 * (k[i + 1] as int)
  }

  lemma KeyParts(d: DnsQR, n: nat)
    requires |d.queryIp| == |d.responseIp| == n
    ensures var k := KeyBytes(d);
            && |k| == 2 * n + 8 && k[..n] == d.queryIp && k[n..2 * n] == d.responseIp
            && LowFirst(k, 2 * n) == d.proto && LowFirst(k, 2 * n + 2) == d.queryPort
            && LowFirst(k, 2 * n + 4) == d.responsePort && LowFirst(k, 2 * n + 6) == d.id
  {
  }

  // ---------- Specification: a queue of unanswered queries, oldest first ----------

  /** The index of the oldest query that `d` answers, or the length of the queue. */
  function OldestMatch(q: seq<DnsQR>, d: DnsQR, rcode: nat): (p: nat)
    ensures p <= |q|
    ensures forall i :: 0 <= i < p ==> !Eq(d, q[i], rcode)
    ensures p < |q| ==> Eq(d, q[p], rcode)
  {
    if q == [] then 0
    else if Eq(d, q[0], rcode) then 0
    else 1 + OldestMatch(q[1..], d, rcode)
  }

  function Without<T>(q: seq<T>, p: nat): seq<T>
    requires p < |q|
  {
    q[..p] + q[p + 1..]
  }

  // ---------- Specification: one call of the packet loop ----------

  /** What the matcher is configured with; the filters decide on a query without response, on a
  matched pair and on a response without query. */
  datatype Config = Config(
    maxValues: nat, queryTimeout: nat,
    filtered: DnsQR -> bool, filteredPair: (DnsQR, DnsQR) -> bool, filteredResponse: DnsQR -> bool)

  datatype Status = Status(queue: seq<DnsQR>, stop: bool, now: int)

  /** A packet as it comes out of parsing: dropped before or after the clock was set, a message
  that is passed on as it is, a query, or a response with its code. */
  datatype Packet = Malformed(code: nat) | Ignored(code: nat) | PassedOn | Query(q: DnsQR) | Response(r: DnsQR, rcode: nat)

  /** What reading the packet source gives; it is only asked if the call gets that far. */
  datatype Read = Got(packet: Packet, sec: int) | EndOfInput | ReadError(code: nat)

  datatype Message = Unanswered(query: DnsQR) | Answered(query: DnsQR, response: DnsQR) | Unsolicited(response: DnsQR) | Other

  datatype Outcome = Again | Eof | Error(code: nat) | Emit(m: Message)

  /** The state after a call, what it returns, and the query that left the queue in it. */
  datatype Call = Call(s: Status, out: Outcome, left: Option<DnsQR>)

  predicate Expired(c: Config, s: Status) {
    s.queue != [] && (|s.queue| > c.maxValues || s.stop || s.now - s.queue[0].time > c.queryTimeout)
  }

  function ProcessPacket(c: Config, s: Status, p: Packet, sec: int): Call {
    match p
    case Malformed(code) => Call(s, Error(code), None)
    case Ignored(code) => Call(s.(now := sec), Error(code), None)
    case PassedOn => Call(s.(now := sec), Emit(Other), None)
    case Query(q) => Call(s.(now := sec, queue := s.queue + [q]), Again, None)
    case Response(r, rcode) =>
      var p := OldestMatch(s.queue, r, rcode);
      if p == |s.queue| then
        Call(s.(now := sec), if c.filteredResponse(r) then Again else Emit(Unsolicited(r)), None)
      else
        var q := s.queue[p];
        Call(s.(now := sec, queue := Without(s.queue, p)), if c.filteredPair(q, r) then Again else Emit(Answered(q, r)), Some(q))
  }

  function ProcessRead(c: Config, s: Status, r: Read): Call {
    match r
    case Got(p, sec) => ProcessPacket(c, s, p, sec)
    case EndOfInput => Call(s.(stop := true), Again, None)
    case ReadError(code) => Call(s, Error(code), None)
  }

  /** One call: first a query may be trimmed, which is returned unless it is filtered; otherwise
  a packet is read and processed, unless input has ended and nothing is left to trim. */
  datatype Turn = Turn(s: Status, out: Outcome, entered: seq<DnsQR>, left: seq<DnsQR>)

  function ReadTurn(c: Config, s: Status, r: Read, left: seq<DnsQR>): Turn {
    var call := ProcessRead(c, s, r);
    Turn(call.s, call.out, Entering(r), left + Listed(call.left))
  }

  function Entering(r: Read): seq<DnsQR> {
    if r.Got? && r.packet.Query? then [r.packet.q] else []
  }

  function Listed<T>(x: Option<T>): seq<T> {
    if x.Some? then [x.value] else []
  }

  function PktToPayload(c: Config, s: Status, r: Read): Turn {
    if Expired(c, s) then
      var q, rest := s.queue[0], s.(queue := s.queue[1..]);
      if c.filtered(q) then ReadTurn(c, rest, r, [q]) else Turn(rest, Emit(Unanswered(q)), [], [q])
    else if s.stop then Turn(s, Eof, [], [])
    else ReadTurn(c, s, r, [])
  }

  /** A run of calls, with all outcomes and all queries that entered and left, in order. */
  datatype History = History(s: Status, outs: seq<Outcome>, entered: seq<DnsQR>, left: seq<DnsQR>)

  function Run(c: Config, s: Status, rs: seq<Read>): (h: History)
    ensures |h.outs| == |rs|
    decreases |rs|
  {
    if rs == [] then History(s, [], [], [])
    else
      var t := PktToPayload(c, s, rs[0]);
      var h := Run(c, t.s, rs[1..]);
      History(h.s, [t.out] + h.outs, t.entered + h.entered, t.left + h.left)
  }

  // ---------- Properties of runs ----------

  lemma PacketAddsOne(c: Config, s: Status, p: Packet, sec: int)
    ensures |ProcessPacket(c, s, p, sec).s.queue| <= |s.queue| + 1
  {
  }

  lemma WithoutFirst<T>(q: seq<T>)
    requires q != []
    ensures Without(q, 0) == q[1..]
  {
  }

  lemma WithoutLosesOne<T>(q: seq<T>, p: nat)
    requires p < |q|
    ensures multiset(q) == multiset(Without(q, p)) + multiset{q[p]}
  {
    assert q == q[..p] + [q[p]] + q[p + 1..];
  }

  lemma CallConserves(c: Config, s: Status, r: Read)
    ensures var call := ProcessRead(c, s, r);
            multiset(s.queue) + multiset(Entering(r)) == multiset(call.s.queue) + multiset(Listed(call.left))
  {
    hide Eq, OldestMatch;
    if r.Got? && r.packet.Response? {
      ResponseConserves(c, s, r.packet, r.sec);
    } else if r.Got? && r.packet.Query? {
      var q := r.packet.q;
      assert multiset(s.queue + [q]) == multiset(s.queue) + multiset([q]);
    }
  }

  lemma ResponseConserves(c: Config, s: Status, p: Packet, sec: int)
    requires p.Response?
    ensures var call := ProcessPacket(c, s, p, sec);
            multiset(s.queue) == multiset(call.s.queue) + multiset(Listed(call.left))
  {
    hide Eq, OldestMatch, Without;
    var i := OldestMatch(s.queue, p.r, p.rcode);
    if i < |s.queue| {
      WithoutLosesOne(s.queue, i);
    }
  }

  lemma TurnConserves(c: Config, s: Status, r: Read)
    ensures var t := PktToPayload(c, s, r);
            multiset(s.queue) + multiset(t.entered) == multiset(t.s.queue) + multiset(t.left)
  {
    hide ProcessRead, Entering, Listed;
    if Expired(c, s) {
      var q, rest := s.queue[0], s.(queue := s.queue[1..]);
      assert s.queue == [q] + rest.queue;
      if c.filtered(q) {
        var call := ProcessRead(c, rest, r);
        CallConserves(c, rest, r);
        Chained(multiset(s.queue), multiset{}, multiset{q}, multiset(rest.queue),
                multiset(Entering(r)), multiset(Listed(call.left)), multiset(call.s.queue));
        assert multiset([q] + Listed(call.left)) == multiset{q} + multiset(Listed(call.left));
      }
    } else if !s.stop {
      CallConserves(c, s, r);
      assert [] + Listed(ProcessRead(c, s, r).left) == Listed(ProcessRead(c, s, r).left);
    }
  }

  lemma Chained<T>(a: multiset<T>, in1: multiset<T>, out1: multiset<T>, b: multiset<T>,
                   in2: multiset<T>, out2: multiset<T>, c: multiset<T>)
    requires a + in1 == b + out1 && b + in2 == c + out2
    ensures a + (in1 + in2) == c + (out1 + out2)
  {
    assert a + (in1 + in2) == (a + in1) + in2;
    assert (b + out1) + in2 == (b + in2) + out1;
  }

  /** Every query that entered has left exactly once or is still waiting. */
  lemma {:induction false} RunConserves(c: Config, s: Status, rs: seq<Read>)
    ensures var h := Run(c, s, rs);
            multiset(s.queue) + multiset(h.entered) == multiset(h.s.queue) + multiset(h.left)
    decreases |rs|
  {
    if rs != [] {
      hide PktToPayload;
      var t := PktToPayload(c, s, rs[0]);
      var h := Run(c, t.s, rs[1..]);
      TurnConserves(c, s, rs[0]);
      RunConserves(c, t.s, rs[1..]);
      Chained(multiset(s.queue), multiset(t.entered), multiset(t.left), multiset(t.s.queue),
              multiset(h.entered), multiset(h.left), multiset(h.s.queue));
      assert multiset(t.entered + h.entered) == multiset(t.entered) + multiset(h.entered);
      assert multiset(t.left + h.left) == multiset(t.left) + multiset(h.left);
    }
  }

  /** At most one query too many is ever stored, and none whenever a packet is taken. */
  lemma {:induction false} RunIsBounded(c: Config, s: Status, rs: seq<Read>)
    requires |s.queue| <= c.maxValues + 1
    ensures |Run(c, s, rs).s.queue| <= c.maxValues + 1
    decreases |rs|
  {
    hide PktToPayload;
    if rs != [] {
      TurnIsBounded(c, s, rs[0]);
      RunIsBounded(c, PktToPayload(c, s, rs[0]).s, rs[1..]);
    }
  }

  lemma TurnIsBounded(c: Config, s: Status, r: Read)
    requires |s.queue| <= c.maxValues + 1
    ensures |PktToPayload(c, s, r).s.queue| <= c.maxValues + 1
  {
    hide ProcessPacket;
    if r.Got? {
      PacketAddsOne(c, s, r.packet, r.sec);
      if s.queue != [] {
        PacketAddsOne(c, s.(queue := s.queue[1..]), r.packet, r.sec);
      }
    }
  }

  /** The end of input is reported only when no query is waiting. */
  lemma {:induction false} EofMeansEmpty(c: Config, s: Status, rs: seq<Read>, i: nat)
    requires i < |rs| && Run(c, s, rs).outs[i] == Eof
    ensures Run(c, s, rs[..i]).s.queue == [] && Run(c, s, rs[..i]).s.stop
    decreases i
  {
    hide PktToPayload;
    if i == 0 {
      EofAtOnce(c, s, rs[0]);
      assert rs[..0] == [];
    } else {
      var t := PktToPayload(c, s, rs[0]);
      EofMeansEmpty(c, t.s, rs[1..], i - 1);
      RunHead(c, s, rs[..i]);
      assert rs[..i][1..] == rs[1..][..i - 1];
    }
  }

  lemma EofAtOnce(c: Config, s: Status, r: Read)
    requires PktToPayload(c, s, r).out == Eof
    ensures s.queue == [] && s.stop
  {
  }

  lemma RunHead(c: Config, s: Status, rs: seq<Read>)
    requires rs != []
    ensures Run(c, s, rs).s == Run(c, PktToPayload(c, s, rs[0]).s, rs[1..]).s
  {
    hide PktToPayload;
  }

  /** What a call returns for a query that leaves without a response. */
  function Farewell(c: Config, q: DnsQR): Outcome {
    if c.filtered(q) then Again else Emit(Unanswered(q))
  }

  /** One for each query, oldest first. */
  function Farewells(c: Config, qs: seq<DnsQR>): seq<Outcome> {
    if qs == [] then [] else [Farewell(c, qs[0])] + Farewells(c, qs[1..])
  }

  /** Once input has ended for good, the waiting queries leave one by one, oldest first, and then
  the end of input is reported. */
  lemma {:induction false} Drains(c: Config, s: Status, rs: seq<Read>)
    requires s.stop && |rs| == |s.queue| + 1
    requires forall i :: 0 <= i < |rs| ==> rs[i] == EndOfInput
    ensures var h := Run(c, s, rs);
            && h.s.queue == [] && h.entered == [] && h.left == s.queue
            && h.outs == Farewells(c, s.queue) + [Eof]
    decreases |rs|
  {
    hide PktToPayload, Farewell;
    DrainTurn(c, s);
    if s.queue != [] {
      var q := s.queue;
      Drains(c, PktToPayload(c, s, rs[0]).s, rs[1..]);
      assert q == [q[0]] + q[1..];
    } else {
      assert rs[1..] == [];
    }
  }

  /** One call after input has ended. */
  lemma DrainTurn(c: Config, s: Status)
    requires s.stop
    ensures PktToPayload(c, s, EndOfInput) ==
            if s.queue == [] then Turn(s, Eof, [], [])
            else Turn(s.(queue := s.queue[1..]), Farewell(c, s.queue[0]), [], [s.queue[0]])
  {
    hide ProcessPacket;
  }
}
