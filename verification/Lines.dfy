/** Splitting a stream into lines: the buffer of `src/bytestream.c` and the loop of `src/bytestream_aux.c`. */
module Lines {
  /** The lines of `a`, a line beginning at `start` and the search for its end standing at `i`.  Text behind the last
      newline is not a line. */
  function LinesFrom(a: string, start: nat, i: nat): seq<string>
    requires start <= i <= |a|
    decreases |a| - i
  {
    if i == |a| then []
    else if a[i] == '\n' then [a[start..i]] + LinesFrom(a, i + 1, i + 1)
    else LinesFrom(a, start, i + 1)
  }

  function LinesOf(a: string): seq<string> {
    LinesFrom(a, 0, 0)
  }

  /** The lines written one behind the other, each with its newline. */
  function Joined(lines: seq<string>): string {
    if lines == [] then "" else lines[0] + "\n" + Joined(lines[1..])
  }

  predicate Plain(s: string) {
    forall k :: 0 <= k < |s| ==> s[k] != '\n'
  }

  /** The end of the text that is not terminated. */
  function TailFrom(a: string, start: nat, i: nat): string
    requires start <= i <= |a|
    decreases |a| - i
  {
    if i == |a| then a[start..]
    else if a[i] == '\n' then TailFrom(a, i + 1, i + 1)
    else TailFrom(a, start, i + 1)
  }

  lemma JoinedMore(first: string, rest: seq<string>, tail: string)
    ensures Joined([first] + rest) + tail == first + ("\n" + (Joined(rest) + tail))
  {
    assert ([first] + rest)[1..] == rest;
  }

  /** The lines together with the rest are the whole text, byte for byte, and none of them holds a newline. */
  lemma {:induction false} LinesJoin(a: string, start: nat, i: nat)
    requires start <= i <= |a| && Plain(a[start..i])
    ensures Joined(LinesFrom(a, start, i)) + TailFrom(a, start, i) == a[start..]
    ensures forall l :: l in LinesFrom(a, start, i) ==> Plain(l)
    ensures Plain(TailFrom(a, start, i))
    decreases |a| - i
  {
    if i == |a| {
      assert a[start..] == a[start..i];
    } else if a[i] == '\n' {
      LinesJoin(a, i + 1, i + 1);
      var first, rest := a[start..i], LinesFrom(a, i + 1, i + 1);
      JoinedMore(first, rest, TailFrom(a, i + 1, i + 1));
      assert a[start..] == first + ("\n" + a[i + 1..]);
    } else {
      assert a[start..i + 1] == a[start..i] + [a[i]];
      LinesJoin(a, start, i + 1);
    }
  }

  lemma LinesAreTheText(a: string)
    ensures Joined(LinesOf(a)) + TailFrom(a, 0, 0) == a
    ensures (forall l :: l in LinesOf(a) ==> Plain(l)) && Plain(TailFrom(a, 0, 0))
  {
    LinesJoin(a, 0, 0);
  }

  /** What comes before the line that is being read does not matter. */
  lemma {:induction false} LinesShift(a: string, from: nat, start: nat, i: nat)
    requires from <= start <= i <= |a|
    ensures LinesFrom(a[from..], start - from, i - from) == LinesFrom(a, start, i)
    decreases |a| - i
  {
    var b := a[from..];
    if i < |a| {
      assert b[i - from] == a[i];
      assert b[start - from..i - from] == a[start..i];
      LinesShift(a, from, if a[i] == '\n' then i + 1 else start, i + 1);
    }
  }

  datatype ByteRange = ByteRange(start: nat, end: nat)

  class Stream {
    var buf: array<char>
    const growsz: nat
    var eod: nat
    var pos: nat
    /** What the file descriptor will still give. */
    var file: string
    /** The lines handed to the callback. */
    var lines: seq<string>

    ghost predicate Valid()
      reads this
    {
      growsz > 0 && pos <= eod <= buf.Length
    }

    /** What is in the buffer and what is still to be read. */
    ghost function All(): string
      reads this, buf
      requires Valid()
    {
      buf[..eod] + file
    }

    /** `bytestream_init` */
    constructor (growsz: nat, file: string)
      requires growsz > 0
      ensures Valid() && pos == 0 && All() == file && lines == [] && fresh(buf)
    {
      this.growsz := growsz;
      buf := new char[growsz];
      eod, pos := 0, 0;
      this.file := file;
      lines := [];
    }

    /** `bytestream_grow` */
    method Grow(incr: nat)
      requires Valid()
      modifies this`buf
      ensures Valid() && fresh(buf) && buf.Length == old(buf.Length) + incr && All() == old(All())
    {
      var tmp := new char[buf.Length + incr];
      forall i | 0 <= i < buf.Length {
        tmp[i] := buf[i];
      }
      assert tmp[..eod] == buf[..eod];
      buf := tmp;
    }

    /** `read`: at the end of the file nothing, otherwise something, but no more than asked for. */
    method Read(sz: nat) returns (nread: nat)
      requires Valid() && 0 < sz && eod + sz <= buf.Length
      modifies buf, this`file
      ensures buf[..eod] == old(buf[..eod]) && nread <= sz && (nread == 0 <==> old(file) == "")
      ensures buf[eod..eod + nread] + file == old(file)
    {
      if file == "" {
        return 0;
      }
      nread :| 1 <= nread <= sz && nread <= |file|;
      forall i | 0 <= i < nread {
        buf[eod + i] := file[i];
      }
      assert buf[eod..eod + nread] == file[..nread];
      file := file[nread..];
    }

    /** `bytestream_read_more` */
    method ReadMore(sz: nat) returns (nread: nat)
      requires Valid() && sz > 0
      modifies this`buf, this`eod, this`file, buf
      ensures Valid() && (buf == old(buf) || fresh(buf)) && All() == old(All()) && eod == old(eod) + nread
        && pos == old(pos)
      ensures nread == 0 <==> old(file) == ""
    {
      var need := eod + sz - buf.Length;
      if need > 0 {
        Grow(if need < growsz then growsz else need);
      }
      ghost var before := buf[..eod] + file;
      nread := Read(sz);
      assert buf[..eod + nread] == buf[..eod] + buf[eod..eod + nread];
      eod := eod + nread;
    }

    /** `bytestream_consume_data` */
    method ConsumeData() returns (res: int)
      requires Valid()
      modifies this`buf, this`eod, this`file, buf
      ensures Valid() && (buf == old(buf) || fresh(buf)) && All() == old(All()) && pos == old(pos)
      ensures res == 0 <==> old(file) != ""
      ensures if res == 0 then eod > old(eod) else eod == old(eod)
      ensures file == "" || res == 0
    {
      var need := pos + growsz - eod;
      if need <= 0 {
        need := growsz;
      }
      var nread := ReadMore(need);
      AllGrows(old(buf[..eod]), old(file), buf[..eod], file);
      res := if nread == 0 then -1 else 0;
    }

    /** `bytestream_recycle`: moves the data from `from`, rounded down to a page, to the front if that pays. */
    method Recycle(ngrowsz: nat, from: nat, pgsz: nat) returns (shift: nat)
      requires Valid() && pgsz > 0 && from <= pos
      modifies this`eod, this`pos, buf
      ensures Valid() && shift <= from && pos == old(pos) - shift && eod == old(eod) - shift
      ensures var page := from - from % pgsz; shift == if page > growsz * ngrowsz then page else 0
      ensures All() == old(All())[shift..]
    {
      var at := from - from % pgsz;
      if at > growsz * ngrowsz {
        forall i | 0 <= i < eod - at {
          buf[i] := buf[i + at];
        }
        assert buf[..eod - at] == old(buf[..eod])[at..];
        eod := eod - at;
        pos := pos - at;
        shift := at;
      } else {
        shift := 0;
      }
    }

    /** The inner loop of `bytestream_consume_lines`: everything in the buffer is looked at once. */
    method Scan(line: ByteRange, ghost want: seq<string>) returns (after: ByteRange)
      requires Valid() && line.start <= pos && lines + LinesFrom(All(), line.start, pos) == want
      modifies this`pos, this`lines
      ensures Valid() && after.start <= pos == eod && lines + LinesFrom(All(), after.start, pos) == want
    {
      after := line;
      while eod > pos
        invariant Valid() && after.start <= pos && lines + LinesFrom(All(), after.start, pos) == want
      {
        var ch := buf[pos];
        assert All()[pos] == ch;
        if ch == '\n' {
          after := after.(end := pos);
          LineStep(lines, All(), after.start, pos);
          FrontSlice(buf[..eod], file, after.start, pos);
          assert buf[..eod][after.start..pos] == buf[after.start..after.end];
          lines := lines + [buf[after.start..after.end]];
          pos := pos + 1;
          after := after.(start := pos);
        } else {
          pos := pos + 1;
        }
      }
    }

    /** `bytestream_recycle` as the loop calls it: the current line moves along. */
    method RecycleLine(line: ByteRange, pgsz: nat) returns (after: ByteRange)
      requires Valid() && line.start <= pos && pgsz > 0
      modifies this`pos, this`eod, buf
      ensures Valid() && after.start <= pos && pos - after.start == old(pos) - line.start && eod - pos == old(eod - pos)
      ensures LinesFrom(All(), after.start, pos) == old(LinesFrom(All(), line.start, pos))
    {
      var recyclePos := line.start - line.start % growsz;
      assert 0 <= recyclePos <= pos;
      ghost var all, end := All(), pos;
      var shiftBack := Recycle(2, recyclePos, pgsz);
      assert shiftBack <= line.start;
      LinesShift(all, shiftBack, line.start, end);
      after := line.(start := line.start - shiftBack);
    }

    /** `bytestream_consume_lines` with a callback that returns 0.  Whatever the sizes of the reads, the growth step and
        the page, the callback gets exactly the lines from the position on, in order. */
    method ConsumeLines(pgsz: nat) returns (res: int)
      requires Valid() && pgsz > 0
      modifies this, buf
      ensures Valid() && res == 0 && file == ""
      ensures lines == old(lines) + LinesOf(old(All())[old(pos)..])
    {
      ghost var want := old(lines) + LinesFrom(All(), pos, pos);
      LinesShift(All(), pos, pos, pos);
      res := 0;
      var line := ByteRange(pos, 0);
      while true
        invariant Valid() && (buf == old(buf) || fresh(buf)) && line.start <= pos && pos <= |All()|
        invariant lines + LinesFrom(All(), line.start, pos) == want
        decreases |file|, eod - pos
      {
        ghost var unread := file;
        if pos >= eod {
          var r := ConsumeData();
          if r != 0 {
            assert All() == buf[..eod] + file;
            break;
          }
        }
        line := Scan(line, want);
        line := RecycleLine(line, pgsz);
      }
    }
  }

  lemma AllGrows(b: string, f: string, b': string, f': string)
    requires b + f == b' + f' && |b| <= |b'|
    ensures |f'| <= |f| && (|b| < |b'| ==> |f'| < |f|) && (|b| == |b'| ==> f' == f)
  {
    assert |b + f| == |b| + |f| && |b' + f'| == |b'| + |f'|;
    if |b| == |b'| {
      assert f == (b + f)[|b|..];
      assert f' == (b' + f')[|b|..];
    }
  }

  lemma FrontSlice(b: string, f: string, i: nat, j: nat)
    requires i <= j <= |b|
    ensures (b + f)[i..j] == b[i..j]
  {
  }

  lemma LineStep(lines: seq<string>, a: string, start: nat, i: nat)
    requires start <= i < |a| && a[i] == '\n'
    ensures lines + LinesFrom(a, start, i) == lines + [a[start..i]] + LinesFrom(a, i + 1, i + 1)
  {
  }
}
