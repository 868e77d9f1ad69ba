/** The container format of files: a header with the length, then the container. */
module StreamSpec {
  import opened Words

  const WBUFSZ_MAX: nat := 1048576

  const MAGIC: seq<Byte> := [78, 77, 83, 71]

  /** A container as it is written, in either version of the header. */
  datatype Packed =
    | V1(body: seq<Byte>)
    | V2(flags: Byte, body: seq<Byte>)

  predicate WellFormed(c: Packed) {
    |c.body| <= WBUFSZ_MAX && (c.V1? ==> |c.body| < 0x1_0000)
  }

  function Net16(n: nat): seq<Byte>
    requires n < 0x1_0000
  {
    [n / 0x100, n % 0x100]
  }

  function Net32(n: nat): seq<Byte>
    requires n < 0x1_0000_0000
  {
    Net16(n / 0x1_0000) + Net16(n % 0x1_0000)
  }

  function Encode(c: Packed): seq<Byte>
    requires WellFormed(c)
  {
    match c
    case V1(body) => MAGIC + [0, 1] + Net16(|body|) + body
    case V2(flags, body) => MAGIC + [flags, 2] + Net32(|body|) + body
  }

  function EncodeAll(cs: seq<Packed>): seq<Byte>
    requires forall i :: 0 <= i < |cs| ==> WellFormed(cs[i])
  {
    if cs == [] then [] else Encode(cs[0]) + EncodeAll(cs[1..])
  }

  // ---------- Reading, all bytes at hand ----------

  /** `Abort` stands for a failed assertion. */
  datatype Result = Container(body: seq<Byte>, flags: Byte) | Eof | MagicMismatch | VersionMismatch | Abort

  function Load16(u: seq<Byte>): nat
    requires |u| >= 2
  {
    (u[0] as int) * 0x100 + u[1]
  }

  function Load32(u: seq<Byte>): nat
    requires |u| >= 4
  {
    Load16(u) * 0x1_0000 + Load16(u[2..])
  }

  /** The size of the length field, or 0 for an unknown version. */
  function LengthSize(u: seq<Byte>): nat
    requires |u| >= 6
  {
    if Load16(u[4..]) == 1 then 2 else if u[5] == 2 then 4 else 0
  }

  /** The flags after the version field was read: a container of version 1 keeps what was there. */
  function FlagsOf(u: seq<Byte>, flags: Byte): Byte
    requires |u| >= 6
  {
    if Load16(u[4..]) != 1 && u[5] == 2 then u[4] else flags
  }

  function Length(u: seq<Byte>): nat
    requires |u| >= 6 && LengthSize(u) > 0 && |u| >= 6 + LengthSize(u)
  {
    if LengthSize(u) == 2 then Load16(u[6..]) else Load32(u[6..])
  }

  /** The result of one call, and what is left to read. */
  function Parse(u: seq<Byte>, flags: Byte): (Result, seq<Byte>) {
    if |u| < 6 then (Eof, u)
    else if u[..4] != MAGIC then (MagicMismatch, u)
    else if LengthSize(u) == 0 then (VersionMismatch, u[6..])
    else if |u| < 6 + LengthSize(u) then (Abort, u[6..])
    else
      var at := 6 + LengthSize(u);
      if |u| < at + Length(u) then (Eof, u[at..])
      else (Container(u[at..at + Length(u)], FlagsOf(u, flags)), u[at + Length(u)..])
  }

  lemma Load16Net16(n: nat, rest: seq<Byte>)
    requires n < 0x1_0000
    ensures Load16(Net16(n) + rest) == n && (Net16(n) + rest)[2..] == rest
  {
  }

  lemma Load32Net32(n: nat, rest: seq<Byte>)
    requires n < 0x1_0000_0000
    ensures Load32(Net32(n) + rest) == n
  {
    assert Net32(n) + rest == Net16(n / 0x1_0000) + (Net16(n % 0x1_0000) + rest);
    Load16Net16(n / 0x1_0000, Net16(n % 0x1_0000) + rest);
    Load16Net16(n % 0x1_0000, rest);
  }

  lemma Head(x: Byte, y: Byte, tail: seq<Byte>)
    ensures var u := MAGIC + [x, y] + tail;
            u[..4] == MAGIC && u[4] == x && u[5] == y && u[6..] == tail && Load16(u[4..]) == (x as int) * 0x100 + y
  {
  }

  lemma Cut(head: seq<Byte>, body: seq<Byte>, rest: seq<Byte>)
    ensures var u := head + body + rest; u[|head|..|head| + |body|] == body && u[|head| + |body|..] == rest
  {
  }

  lemma ParseV1(body: seq<Byte>, rest: seq<Byte>, flags: Byte)
    requires |body| < 0x1_0000
    ensures Parse(MAGIC + [0, 1] + (Net16(|body|) + body + rest), flags) == (Container(body, flags), rest)
  {
    var tail := Net16(|body|) + body + rest;
    Head(0, 1, tail);
    assert tail == Net16(|body|) + (body + rest);
    Load16Net16(|body|, body + rest);
    Cut(MAGIC + [0, 1] + Net16(|body|), body, rest);
    assert MAGIC + [0, 1] + tail == MAGIC + [0, 1] + Net16(|body|) + body + rest;
    hide Net16, Load16, Load32;
  }

  lemma ParseV2(fl: Byte, body: seq<Byte>, rest: seq<Byte>, flags: Byte)
    requires |body| < 0x1_0000_0000
    ensures Parse(MAGIC + [fl, 2] + (Net32(|body|) + body + rest), flags) == (Container(body, fl), rest)
  {
    var tail := Net32(|body|) + body + rest;
    Head(fl, 2, tail);
    assert tail == Net32(|body|) + (body + rest);
    Load32Net32(|body|, body + rest);
    Cut(MAGIC + [fl, 2] + Net32(|body|), body, rest);
    assert MAGIC + [fl, 2] + tail == MAGIC + [fl, 2] + Net32(|body|) + body + rest;
    assert |Net32(|body|)| == 4;
    hide Net32, Load16, Load32;
  }

  /** What was written is read, whatever follows it. */
  lemma ParseEncode(c: Packed, rest: seq<Byte>, flags: Byte)
    requires WellFormed(c)
    ensures Parse(Encode(c) + rest, flags) == (Container(c.body, if c.V2? then c.flags else flags), rest)
  {
    hide Parse;
    match c {
      case V1(body) =>
        ParseV1(body, rest, flags);
        assert MAGIC + [0, 1] + (Net16(|body|) + body + rest) == Encode(c) + rest;
      case V2(fl, body) =>
        ParseV2(fl, body, rest, flags);
        assert MAGIC + [fl, 2] + (Net32(|body|) + body + rest) == Encode(c) + rest;
    }
  }

  /** The containers with the flags they are read with. */
  function Results(cs: seq<Packed>, flags: Byte): seq<Result> {
    if cs == [] then []
    else
      var fl := if cs[0].V2? then cs[0].flags else flags;
      [Container(cs[0].body, fl)] + Results(cs[1..], fl)
  }

  /** All calls until one finds no container. */
  function ParseAll(u: seq<Byte>, flags: Byte): (seq<Result>, Result)
    decreases |u|
  {
    var (r, rest) := Parse(u, flags);
    if r.Container? then
      var (rs, end) := ParseAll(rest, r.flags);
      ([r] + rs, end)
    else ([], r)
  }

  /** A file of containers is read back as those containers. */
  lemma {:induction false} ParseAllEncodeAll(cs: seq<Packed>, flags: Byte)
    requires forall i :: 0 <= i < |cs| ==> WellFormed(cs[i])
    ensures ParseAll(EncodeAll(cs), flags) == (Results(cs, flags), Eof)
  {
    if cs != [] {
      ParseEncode(cs[0], EncodeAll(cs[1..]), flags);
      ParseAllEncodeAll(cs[1..], if cs[0].V2? then cs[0].flags else flags);
    }
  }

  /** The flags of a container are its own exactly if it has some, or there were none before. */
  lemma OwnFlags(c: Packed, rest: seq<Byte>, flags: Byte)
    requires WellFormed(c)
    ensures Parse(Encode(c) + rest, flags).0 == Container(c.body, if c.V2? then c.flags else 0) <==> c.V2? || flags == 0
  {
    ParseEncode(c, rest, flags);
  }

  /** A container without flags behind one with flags is read with those flags. */
  lemma StaleFlags(a: seq<Byte>, b: seq<Byte>)
    requires |a| < 0x1_0000 && |b| < 0x1_0000
    ensures WellFormed(V2(1, a)) && WellFormed(V1(b))
    ensures ParseAll(EncodeAll([V2(1, a), V1(b)]), 0).0 == [Container(a, 1), Container(b, 1)]
  {
    hide ParseAll, EncodeAll;
    var cs := [V2(1, a), V1(b)];
    ParseAllEncodeAll(cs, 0);
    assert cs[1..] == [V1(b)];
    assert Results([V1(b)], 1) == [Container(b, 1)] + Results([], 1);
  }

  /** The header announces more than a container may hold. */
  predicate TooLong(u: seq<Byte>) {
    |u| >= 6 && u[..4] == MAGIC && LengthSize(u) > 0 && |u| >= 6 + LengthSize(u) && Length(u) > WBUFSZ_MAX
  }

  /** What the length field at the start says; nothing if it is not all there. */
  function LengthOf(v: seq<Byte>, size: nat): nat
    requires size in {2, 4}
  {
    if |v| < size then 0 else if size == 2 then Load16(v) else Load32(v)
  }

  /** Reading on behind the version. */
  function Remainder(v: seq<Byte>, size: nat, flags: Byte): (Result, seq<Byte>)
    requires size in {2, 4}
  {
    var n := LengthOf(v, size);
    if |v| < size then (Abort, v)
    else if |v[size..]| < n then (Eof, v[size..])
    else (Container(v[size..][..n], flags), v[size..][n..])
  }

  lemma ParseStart(u: seq<Byte>, flags: Byte)
    ensures |u| < 6 ==> Parse(u, flags) == (Eof, u)
    ensures |u| >= 6 && u[..4] != MAGIC ==> Parse(u, flags) == (MagicMismatch, u)
    ensures |u| >= 6 && u[..4] == MAGIC && LengthSize(u) == 0 ==> Parse(u, flags) == (VersionMismatch, u[6..])
    ensures |u| >= 6 && u[..4] == MAGIC && LengthSize(u) != 0 ==>
              && LengthSize(u) in {2, 4}
              && Parse(u, flags) == Remainder(u[6..], LengthSize(u), FlagsOf(u, flags))
              && (LengthOf(u[6..], LengthSize(u)) > WBUFSZ_MAX ==> TooLong(u))
  {
    if |u| >= 6 && LengthSize(u) != 0 && |u| >= 6 + LengthSize(u) {
      SliceTwice(u, 6, LengthSize(u), Length(u));
    }
    hide Load16, Load32, FlagsOf;
  }

  lemma SliceTwice(u: seq<Byte>, i: nat, j: nat, n: nat)
    requires i + j <= |u|
    ensures u[i..][j..] == u[i + j..]
    ensures i + j + n <= |u| ==> u[i..][j..][..n] == u[i + j..i + j + n] && u[i..][j..][n..] == u[i + j + n..]
  {
  }

  /** No container that was written is too long. */
  lemma NotTooLong(c: Packed, rest: seq<Byte>)
    requires WellFormed(c)
    ensures !TooLong(Encode(c) + rest)
  {
    hide TooLong;
    match c {
      case V1(body) =>
        LengthV1(body, rest);
        assert Encode(c) + rest == MAGIC + [0, 1] + (Net16(|body|) + (body + rest));
      case V2(fl, body) =>
        LengthV2(fl, body, rest);
        assert Encode(c) + rest == MAGIC + [fl, 2] + (Net32(|body|) + (body + rest));
    }
  }

  lemma LengthV1(body: seq<Byte>, rest: seq<Byte>)
    requires |body| <= WBUFSZ_MAX && |body| < 0x1_0000
    ensures !TooLong(MAGIC + [0, 1] + (Net16(|body|) + (body + rest)))
  {
    var tail := Net16(|body|) + (body + rest);
    Head(0, 1, tail);
    Load16Net16(|body|, body + rest);
    hide Net16, Load16, Load32;
  }

  lemma LengthV2(fl: Byte, body: seq<Byte>, rest: seq<Byte>)
    requires |body| <= WBUFSZ_MAX
    ensures !TooLong(MAGIC + [fl, 2] + (Net32(|body|) + (body + rest)))
  {
    var tail := Net32(|body|) + (body + rest);
    Head(fl, 2, tail);
    Load32Net32(|body|, body + rest);
    hide Net32, Load16, Load32;
  }

  /** The size of the header of a container. */
  function HeaderSize(c: Packed): nat {
    if c.V1? then 8 else 10
  }

  /** What a container has behind its magic number and version. */
  function Behind(c: Packed): seq<Byte>
    requires WellFormed(c)
  {
    match c
    case V1(body) => Net16(|body|) + body
    case V2(_, body) => Net32(|body|) + body
  }

  function Start(c: Packed): seq<Byte> {
    MAGIC + if c.V1? then [0, 1] else [c.flags, 2]
  }

  lemma Parts(c: Packed, cut: nat)
    requires WellFormed(c) && cut <= |Encode(c)|
    ensures |Start(c)| == 6 && |Behind(c)| == |Encode(c)| - 6 && |Encode(c)| == HeaderSize(c) + |c.body|
    ensures Encode(c)[..cut] == if cut < 6 then Start(c)[..cut] else Start(c) + Behind(c)[..cut - 6]
  {
    hide WellFormed;
    EncodeIs(c);
    hide Encode, Start, Behind;
    var start, behind := Start(c), Behind(c);
    assert cut >= 6 ==> (start + behind)[..cut] == start + behind[..cut - 6];
  }

  lemma EncodeIs(c: Packed)
    requires WellFormed(c)
    ensures Encode(c) == Start(c) + Behind(c) && |Start(c)| == 6 && |Encode(c)| == HeaderSize(c) + |c.body|
  {
    match c {
      case V1(body) => assert Encode(c) == Start(c) + (Net16(|body|) + body);
      case V2(_, body) => assert Encode(c) == Start(c) + (Net32(|body|) + body);
    }
  }

  /** A file that ends within a container: the end is reported, but within the length field an
  assertion fails. */
  lemma CutOff(c: Packed, cut: nat, flags: Byte)
    requires WellFormed(c) && cut < |Encode(c)|
    ensures Parse(Encode(c)[..cut], flags).0 == if 6 <= cut < HeaderSize(c) then Abort else Eof
  {
    hide Encode, Net16, Net32, Length, WellFormed;
    Parts(c, cut);
    if cut >= 6 {
      StartIs(c, Behind(c)[..cut - 6]);
      if cut >= HeaderSize(c) {
        CutBody(c, cut);
      }
    }
  }

  lemma StartIs(c: Packed, rest: seq<Byte>)
    ensures var u := Start(c) + rest; u[..4] == MAGIC && u[5] in {1, 2} && LengthSize(u) == HeaderSize(c) - 6
    ensures (Start(c) + rest)[6..] == rest
  {
  }

  lemma CutBody(c: Packed, cut: nat)
    requires WellFormed(c) && HeaderSize(c) <= cut < |Encode(c)|
    ensures var u := Encode(c)[..cut]; LengthSize(u) == HeaderSize(c) - 6 && Length(u) == |c.body|
  {
    hide Encode, Net16, Net32, Load16, Load32, Start;
    Parts(c, cut);
    StartIs(c, Behind(c)[..cut - 6]);
    CutBehind(c, cut - 6);
  }

  lemma CutBehind(c: Packed, k: nat)
    requires WellFormed(c) && HeaderSize(c) - 6 <= k <= |Behind(c)|
    ensures if c.V1? then Load16(Behind(c)[..k]) == |c.body| else Load32(Behind(c)[..k]) == |c.body|
  {
    hide Load16, Load32;
    match c {
      case V1(body) =>
        Load16Net16(|body|, body[..k - 2]);
        assert Behind(c)[..k] == Net16(|body|) + body[..k - 2];
      case V2(fl, body) =>
        Load32Net32(|body|, body[..k - 4]);
        assert Behind(c)[..k] == Net32(|body|) + body[..k - 4];
    }
  }

  /** One byte of a length of two. */
  lemma HalfALength()
    ensures Parse(MAGIC + [0, 1, 5], 0).0 == Abort
  {
    var u := MAGIC + [0, 1, 5];
    assert u[..4] == MAGIC && u[4..] == [0, 1, 5];
  }
}
