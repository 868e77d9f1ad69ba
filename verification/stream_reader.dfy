/** Reading containers from a file through a buffer, when every read may bring fewer bytes than wanted. */
module StreamReader {
  import opened Words
  import opened StreamSpec

  const RBUFSZ: nat := 2 * 1048576
  const BUFSZ: nat := 1048576 // RBUFSZ / 2

  /** A buffer before and after `n` bytes were put at `to`. */
  lemma FilledIs(before: seq<Byte>, after: seq<Byte>, to: nat, bytes: seq<Byte>, at: nat, n: nat)
    requires |after| == |before| && to + n <= |after| && at + n <= |bytes|
    requires forall k :: 0 <= k < to ==> after[k] == before[k]
    requires forall k :: to <= k < to + n ==> after[k] == bytes[at + (k - to)]
    ensures after[..to] == before[..to] && after[to..to + n] == bytes[at..][..n]
  {
  }

  lemma SliceOfPrefix(s: seq<Byte>, end: nat, pos: nat, k: nat)
    requires pos <= k <= end <= |s|
    ensures s[..end][pos..k] == s[pos..k]
  {
    forall i | 0 <= i < k - pos
      ensures s[..end][pos..k][i] == s[pos..k][i]
    {
    }
  }

  /** What was moved from the file to the end of the buffered bytes has not been lost. */
  lemma MovedIs(before: seq<Byte>, after: seq<Byte>, pos: nat, end: nat, rest: seq<Byte>, n: nat)
    requires pos <= end && end + n <= |after| == |before| && n <= |rest|
    requires after[..end] == before[..end] && after[end..end + n] == rest[..n]
    ensures after[pos..end + n] + rest[n..] == before[pos..end] + rest
    ensures forall k :: pos <= k <= end ==> after[pos..k] == before[pos..k]
  {
    SliceOfPrefix(after, end, pos, end);
    SliceOfPrefix(before, end, pos, end);
    assert after[pos..end + n] == after[pos..end] + after[end..end + n];
    assert rest == rest[..n] + rest[n..];
    forall k | pos <= k <= end
      ensures after[pos..k] == before[pos..k]
    {
      SliceOfPrefix(after, end, pos, k);
      SliceOfPrefix(before, end, pos, k);
    }
  }

  /** A file, of which a read gives some of the next bytes. */
  class File {
    const bytes: seq<Byte>
    var at: nat

    ghost predicate Valid()
      reads this
    {
      at <= |bytes|
    }

    ghost function Rest(): seq<Byte>
      reads this
      requires Valid()
    {
      bytes[at..]
    }

    constructor (bytes: seq<Byte>)
      ensures Valid() && Rest() == bytes
    {
      this.bytes, at := bytes, 0;
    }

    /** Reads between one byte and `max`, and nothing only at the end. */
    method ReadInto(buf: array<Byte>, to: nat, max: nat) returns (n: nat)
      requires Valid() && max > 0 && to + max <= buf.Length
      modifies this, buf
      ensures Valid() && n <= max && n <= |old(Rest())| && (n == 0 <==> old(Rest()) == [])
      ensures Rest() == old(Rest())[n..]
      ensures buf[..to] == old(buf[..to]) && buf[to..to + n] == old(Rest())[..n]
    {
      var left := |bytes| - at;
      if left == 0 {
        return 0;
      }
      n :| 1 <= n <= max && n <= left;
      var i := 0;
      while i < n
        invariant i <= n && at == old(at)
        invariant forall k :: 0 <= k < to ==> buf[k] == old(buf[k])
        invariant forall k :: to <= k < to + i ==> buf[k] == bytes[at + (k - to)]
      {
        buf[to + i] := bytes[at + i];
        i := i + 1;
      }
      FilledIs(old(buf[..]), buf[..], to, bytes, at, n);
      assert buf[..to] == buf[..][..to] && old(buf[..to]) == old(buf[..])[..to];
      assert buf[to..to + n] == buf[..][to..to + n];
      at := at + n;
    }
  }

  datatype Res = Success | EndOfFile | NoSpace

  class Reader {
    const file: File
    const data: array<Byte>
    var pos: nat
    var end: nat
    var flags: Byte

    ghost predicate Valid()
      reads this, file
    {
      file.Valid() && data.Length == RBUFSZ && pos <= end <= RBUFSZ
    }

    /** What has not been consumed: the rest of the buffer, then the rest of the file. */
    ghost function Unread(): seq<Byte>
      reads this, file, data
      requires Valid()
    {
      data[pos..end] + file.Rest()
    }

    /** How it is between calls: the buffer is empty, or its data ends in the first half. */
    ghost predicate Ready()
      reads this, file
    {
      Valid() && (pos == end || end <= BUFSZ)
    }

    constructor (file: File)
      requires file.Valid()
      ensures Ready() && Unread() == file.Rest() && flags == 0 && this.file == file && fresh(data)
    {
      this.file := file;
      data := new Byte[RBUFSZ](_ => 0);
      pos, end, flags := 0, 0, 0;
    }

    method Reset()
      requires Valid() && pos == end
      modifies this`pos, this`end
      ensures Valid() && pos == end == 0 && Unread() == old(Unread())
    {
      pos, end := 0, 0;
    }

    /** Reads some bytes behind those in the buffer. */
    method ReadMore(max: nat) returns (n: nat)
      requires Valid() && 0 < max <= RBUFSZ - end
      modifies this`end, file, data
      ensures Valid() && n <= max && end == old(end) + n
      ensures n == 0 <==> old(file.Rest()) == []
      ensures n == 0 ==> file.Rest() == []
      ensures Unread() == old(Unread())
      ensures forall k :: pos <= k <= old(end) ==> data[pos..k] == old(data[..])[pos..k]
    {
      ghost var before, rest := data[..], file.Rest();
      n := file.ReadInto(data, end, max);
      ghost var after := data[..];
      assert after[..end] == data[..end] == before[..end];
      assert after[end..end + n] == data[end..end + n];
      MovedIs(before, after, pos, end, rest, n);
      assert data[pos..end + n] == after[pos..end + n] && old(data[pos..end]) == before[pos..end];
      end := end + n;
    }

    /** Reads at least `needed` bytes into the buffer, and at most `max`. */
    method DoReadFile(needed: nat, max: nat) returns (res: Res)
      requires Valid() && needed <= max
      modifies this`end, file, data
      ensures Valid() && Unread() == old(Unread()) && data[pos..old(end)] == old(data[pos..end])
      ensures res == NoSpace <==> old(end) + max > RBUFSZ
      ensures res == Success ==> old(end) + needed <= end <= old(end) + max
      ensures res == EndOfFile ==> |Unread()| < old(end) - pos + needed && old(end) <= end <= old(end) + max && file.Rest() == []
    {
      if end + max > data.Length {
        return NoSpace;
      }
      var need: int, most := needed, max;
      while need > 0
        invariant need <= most && end + most == old(end) + max && end >= old(end)
        invariant need == needed - (end - old(end))
        invariant Valid() && Unread() == old(Unread()) && data[pos..old(end)] == old(data[pos..end])
        decreases need
      {
        var n := ReadMore(most);
        if n == 0 {
          return EndOfFile;
        }
        need := need - n;
        most := most - n;
      }
      res := Success;
    }

    /** Has at least `n` bytes in the buffer. `split` says that there were some, but not enough;
    then no more than `n` are there now. */
    method Ensure(n: nat) returns (res: Res, split: bool)
      requires Ready() && 0 < n <= 6
      modifies this`pos, this`end, file, data
      ensures Valid() && Unread() == old(Unread())
      ensures res == if |old(Unread())| >= n then Success else EndOfFile
      ensures res == Success ==> end - pos >= n && (if split then end - pos == n else end <= BUFSZ)
      ensures res == EndOfFile ==> end - pos < n
    {
      split := false;
      res := Success;
      if end - pos < n {
        if pos == end {
          Reset();
          res := DoReadFile(n, BUFSZ);
        } else {
          split := true;
          res := DoReadFile(n - (end - pos), n - (end - pos));
        }
      }
    }

    method Take(n: nat)
      requires Valid() && pos + n <= end
      modifies this`pos
      ensures Valid() && pos == old(pos) + n && Unread() == old(Unread())[n..]
    {
      pos := pos + n;
      assert Unread() == old(Unread())[n..];
    }

    /** The unread bytes that are in the buffer. */
    lemma Buffered(n: nat)
      requires Valid() && pos + n <= end
      ensures |Unread()| >= n && data[pos..pos + n] == Unread()[..n]
      ensures forall i :: 0 <= i < n ==> data[pos + i] == Unread()[i]
    {
    }

    /** Consumes the magic number and the version; gives the size of the length field. */
    method ReadVersion() returns (res: Result, lenhdrsz: nat)
      requires Ready()
      modifies this, file, data
      ensures Valid()
      ensures var u := old(Unread());
              if |u| < 6 then res == Eof && Unread() == u && lenhdrsz == 0
              else if u[..4] != MAGIC then res == MagicMismatch && Unread() == u && lenhdrsz == 0
              else
                && Unread() == u[6..] && Ready() && lenhdrsz == LengthSize(u)
                && (if LengthSize(u) == 0 then res == VersionMismatch else !res.VersionMismatch? && flags == FlagsOf(u, old(flags)))
    {
      ghost var u := Unread();
      lenhdrsz := 0;
      var r, split := Ensure(6);
      if r != Success {
        return Eof, 0;
      }
      Buffered(6);
      if data[pos..pos + 4] != MAGIC {
        return MagicMismatch, 0;
      }
      assert u[..4] == u[..6][..4];
      Take(4);
      Buffered(2);
      var version := (data[pos] as int) * 0x100 + data[pos + 1];
      assert version == Load16(u[4..]);
      Take(2);
      assert Unread() == u[6..];
      res := Eof;
      if version == 1 {
        lenhdrsz := 2;
      } else if version % 0x100 == 2 {
        flags := version / 0x100;
        lenhdrsz := 4;
      } else {
        res := VersionMismatch;
      }
      if split {
        Reset();
      }
    }

    /** Consumes the length field. That the file ends within it is noticed by an assertion only. */
    method ReadLength(lenhdrsz: nat) returns (ok: bool, msgsize: nat)
      requires Ready() && lenhdrsz in {2, 4}
      modifies this`pos, this`end, file, data
      ensures Valid()
      ensures var u := old(Unread());
              if |u| < lenhdrsz then !ok && Unread() == u
              else ok && end <= BUFSZ && Unread() == u[lenhdrsz..] && msgsize == if lenhdrsz == 2 then Load16(u) else Load32(u)
    {
      ghost var u := Unread();
      var _, split := Ensure(lenhdrsz);
      if end - pos < lenhdrsz {
        return false, 0;
      }
      Buffered(lenhdrsz);
      msgsize := (data[pos] as int) * 0x100 + data[pos + 1];
      if lenhdrsz == 4 {
        msgsize := msgsize * 0x1_0000 + ((data[pos + 2] as int) * 0x100 + data[pos + 3]);
      }
      Take(lenhdrsz);
      if split {
        Reset();
      }
      ok := true;
    }

    /** Consumes a body of the given size. */
    method ReadBody(msgsize: nat) returns (res: Result)
      requires Valid() && end <= BUFSZ
      modifies this`pos, this`end, file, data
      ensures Valid()
      ensures var u := old(Unread());
              if |u| >= msgsize then
                (res == Container(u[..msgsize], flags) && Unread() == u[msgsize..] && Ready()) || (res == Abort && msgsize > WBUFSZ_MAX)
              else (res == Eof && Unread() == u) || (res == Abort && msgsize > WBUFSZ_MAX)
    {
      ghost var u := Unread();
      var avail := end - pos;
      if avail < msgsize {
        var r := DoReadFile(msgsize - avail, msgsize - avail);
        if r == NoSpace {
          return Abort;
        }
        if r == EndOfFile {
          return Eof;
        }
      }
      Buffered(msgsize);
      res := Container(data[pos..pos + msgsize], flags);
      Take(msgsize);
    }

    /** Reads what follows the version. */
    method ReadRemainder(lenhdrsz: nat) returns (res: Result)
      requires Ready() && lenhdrsz in {2, 4}
      modifies this`pos, this`end, file, data
      ensures Valid()
      ensures res != Abort ==> (res, Unread()) == Remainder(old(Unread()), lenhdrsz, flags)
      ensures res == Abort ==> Remainder(old(Unread()), lenhdrsz, flags).0 == Abort || LengthOf(old(Unread()), lenhdrsz) > WBUFSZ_MAX
      ensures res.Container? ==> Ready() && flags == res.flags
      ensures res in {Eof, Abort} || res.Container?
    {
      hide Load16, Load32;
      ghost var v := Unread();
      var ok, msgsize := ReadLength(lenhdrsz);
      if !ok {
        return Abort;
      }
      res := ReadBody(msgsize);
    }

    /** Reads the next container. */
    method ReadContainer() returns (res: Result)
      requires Ready()
      modifies this, file, data
      ensures Valid()
      ensures res != Abort ==> (res, Unread()) == Parse(old(Unread()), old(flags))
      ensures res == Abort ==> Parse(old(Unread()), old(flags)).0 == Abort || TooLong(old(Unread()))
      ensures res.Container? ==> Ready() && flags == res.flags
    {
      hide Parse, FlagsOf, LengthSize, Remainder, TooLong;
      ghost var u := Unread();
      var r, lenhdrsz := ReadVersion();
      ParseStart(u, old(flags));
      if lenhdrsz == 0 {
        return r;
      }
      res := ReadRemainder(lenhdrsz);
    }

    /** Reads containers until there are no more. What was written comes back, container by
    container, however the reads divide the file. */
    method ReadAll(ghost cs: seq<Packed>) returns (out: seq<Result>, last: Result)
      requires Ready() && (forall i :: 0 <= i < |cs| ==> WellFormed(cs[i])) && Unread() == EncodeAll(cs)
      modifies this, file, data
      ensures out == Results(cs, old(flags)) && last == Eof
    {
      hide Parse, Encode, TooLong, WellFormed;
      out := [];
      ghost var i := 0;
      assert cs[0..] == cs;
      while true
        invariant i <= |cs| && Ready() && Unread() == EncodeAll(cs[i..])
        invariant Results(cs, old(flags)) == out + Results(cs[i..], flags)
        decreases |cs| - i
      {
        Next(cs, i, flags);
        last := ReadContainer();
        if !last.Container? {
          return;
        }
        out := out + [last];
        i := i + 1;
      }
    }
  }

  lemma Next(cs: seq<Packed>, i: nat, flags: Byte)
    requires i <= |cs| && forall k :: 0 <= k < |cs| ==> WellFormed(cs[k])
    ensures !TooLong(EncodeAll(cs[i..]))
    ensures if i == |cs| then Parse(EncodeAll(cs[i..]), flags).0 == Eof && Results(cs[i..], flags) == []
            else
              var fl := if cs[i].V2? then cs[i].flags else flags;
              && Parse(EncodeAll(cs[i..]), flags) == (Container(cs[i].body, fl), EncodeAll(cs[i + 1..]))
              && Results(cs[i..], flags) == [Container(cs[i].body, fl)] + Results(cs[i + 1..], fl)
  {
    if i < |cs| {
      assert cs[i..][1..] == cs[i + 1..];
      ParseEncode(cs[i], EncodeAll(cs[i + 1..]), flags);
      NotTooLong(cs[i], EncodeAll(cs[i + 1..]));
    }
  }
}
