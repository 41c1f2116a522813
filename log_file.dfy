/** The backing file of the log engine as a flat sequence of bytes (one
    `char` per byte): a sequence of serialized records, each followed by a
    newline. This module defines how the file is scanned (the line splitting
    that `BufRead::lines` and `read_line` perform), the replay that rebuilds
    the key-to-offset index, and the facts about both that the engine needs. */
module LogFile {
  import opened Wrappers
  import opened Codec

  /** The bytes `append_command` writes for one record. */
  function Framed(c: Command): (s: string)
    ensures |s| == |Serialize(c)| + 1 && s[|s| - 1] == '\n'
  {
    Serialize(c) + "\n"
  }

  /** The file is empty or its last line has its newline. */
  predicate Terminated(f: string)
  {
    f == [] || f[|f| - 1] == '\n'
  }

  /** Position of the first newline at or after `off`, or the end of file. */
  function LineEnd(f: string, off: nat): (e: nat)
    requires off <= |f|
    ensures off <= e <= |f|
    ensures e < |f| ==> f[e] == '\n'
    decreases |f| - off
  {
    if off == |f| || f[off] == '\n' then off else LineEnd(f, off + 1)
  }

  /** No newline lies between `off` and the end of its line. */
  lemma {:induction false} LineEndScan(f: string, off: nat)
    requires off <= |f|
    ensures forall i :: off <= i < LineEnd(f, off) ==> f[i] != '\n'
    decreases |f| - off
  {
    if off < |f| && f[off] != '\n' {
      LineEndScan(f, off + 1);
    }
  }

  /** The end of a line is the first newline at or after its start. */
  lemma {:induction false} LineEndIs(f: string, off: nat, e: nat)
    requires off <= e <= |f| && (e < |f| ==> f[e] == '\n')
    requires forall i :: off <= i < e ==> f[i] != '\n'
    ensures LineEnd(f, off) == e
    decreases e - off
  {
    if off < e {
      LineEndIs(f, off + 1, e);
    }
  }

  /** The line starting at `off`, without its newline (as `lines()` yields it). */
  function LineAt(f: string, off: nat): string
    requires off <= |f|
  {
    f[off..LineEnd(f, off)]
  }

  /** What `read_line` yields after a seek to `off`: the line with its
      newline, if it has one; nothing past the end of the file. */
  function ReadLine(f: string, off: nat): string
  {
    if off >= |f| then []
    else if LineEnd(f, off) < |f| then f[off..LineEnd(f, off) + 1]
    else f[off..]
  }

  /** The record found by seeking to `off` and reading one line. */
  function RecordAt(f: string, off: nat): Option<Command>
  {
    Parse(ReadLine(f, off))
  }

  /** The offsets at which lines start: 0 and every offset after a newline. */
  predicate IsLineStart(f: string, p: nat)
  {
    p < |f| && (p == 0 || f[p - 1] == '\n')
  }

  /** A decoder of one line into a record. The replay below is written for
      any decoder, so that its properties are proved without unfolding the
      record format; `open` replays with `Parse`. */
  type Decoder = string -> Option<Command>

  /** The key of the line starting at `p`, if that line decodes. */
  function KeyAt(dec: Decoder, f: string, p: nat): Option<string>
    requires p <= |f|
  {
    match dec(LineAt(f, p))
    case Some(c) => Some(c.key)
    case None => None
  }

  /** No line starting at or after `from` carries key `k`. */
  ghost predicate NoKeyFrom(dec: Decoder, f: string, from: nat, k: string)
  {
    forall p :: IsLineStart(f, p) && from <= p ==> KeyAt(dec, f, p).Some? && KeyAt(dec, f, p) != Some(k)
  }

  /** The replay loop of `open`, from offset `off` with index `m` so far:
      every line is decoded and its key is pointed at the line's offset. */
  function ReplayFrom(dec: Decoder, f: string, off: nat, m: map<string, nat>): Option<map<string, nat>>
    decreases |f| - off
  {
    if off >= |f| then Some(m)
    else
      var line := LineAt(f, off);
      match dec(line)
      case None => None
      case Some(c) => ReplayFrom(dec, f, off + |line| + 1, m[c.key := off])
  }

  /** The index `open` builds from the whole file, or None if a line does
      not parse. */
  function ReplayIndex(f: string): Option<map<string, nat>>
  {
    ReplayFrom(Parse, f, 0, map[])
  }

  /** The live contents the index denotes: each key whose record is a Set,
      with that record's value. */
  function LiveValues(f: string, index: map<string, nat>): map<string, string>
  {
    map k | k in index && RecordAt(f, index[k]).Some? && RecordAt(f, index[k]).value.action == Set
      :: RecordAt(f, index[k]).value.value
  }

  // ---------------------------------------------------------------------
  // Line scanning

  lemma LineEndAppend(f: string, g: string, off: nat)
    requires off <= |f| && LineEnd(f, off) < |f|
    ensures LineEnd(f + g, off) == LineEnd(f, off)
  {
    var e := LineEnd(f, off);
    LineEndScan(f, off);
    assert (f + g)[e] == '\n';
    forall i | off <= i < e ensures (f + g)[i] != '\n' {
      assert (f + g)[i] == f[i];
    }
    LineEndIs(f + g, off, e);
  }

  lemma TerminatedLineEnd(f: string, off: nat)
    requires Terminated(f) && off < |f|
    ensures LineEnd(f, off) < |f|
  {
    LineEndScan(f, off);
  }

  /** A line start after `off` lies beyond the end of `off`'s line. */
  lemma NextLineStart(f: string, off: nat, p: nat)
    requires off < |f| && IsLineStart(f, p) && off < p
    ensures LineEnd(f, off) + 1 <= p
  {
    LineEndScan(f, off);
    assert f[p - 1] == '\n';
  }

  /** The offset after a line and its newline is the end of the file or
      the start of the next line. */
  lemma LineAfter(f: string, off: nat)
    requires off < |f|
    ensures off + |LineAt(f, off)| == LineEnd(f, off)
    ensures off + |LineAt(f, off)| + 1 >= |f| || IsLineStart(f, off + |LineAt(f, off)| + 1)
  {
  }

  /** Appending leaves every line of a terminated file as it was. */
  lemma LineAtAppend(f: string, g: string, off: nat)
    requires Terminated(f) && off < |f|
    ensures LineAt(f + g, off) == LineAt(f, off)
    ensures off + |LineAt(f, off)| < |f|
  {
    TerminatedLineEnd(f, off);
    LineEndAppend(f, g, off);
    assert (f + g)[off..LineEnd(f, off)] == f[off..LineEnd(f, off)];
  }

  /** A newline-free `s` followed by a newline ends at that newline. */
  lemma SingleLineEnd(f: string, s: string)
    requires '\n' !in s
    ensures LineEnd(f + (s + "\n"), |f|) == |f| + |s|
  {
    var g := f + (s + "\n");
    assert g[|f| + |s|] == '\n';
    forall i | |f| <= i < |f| + |s| ensures g[i] != '\n' {
      assert g[i] == s[i - |f|];
    }
    LineEndIs(g, |f|, |f| + |s|);
  }

  /** A newline-free `s` followed by a newline is one line. */
  lemma SingleLine(f: string, s: string)
    requires '\n' !in s
    ensures LineAt(f + (s + "\n"), |f|) == s
    ensures ReadLine(f + (s + "\n"), |f|) == s + "\n"
  {
    var g := f + (s + "\n");
    SingleLineEnd(f, s);
    assert g[|f|..|f| + |s|] == s;
    assert g[|f|..|f| + |s| + 1] == s + "\n";
  }

  lemma FramedLine(f: string, c: Command)
    ensures LineEnd(f + Framed(c), |f|) == |f| + |Serialize(c)|
    ensures LineAt(f + Framed(c), |f|) == Serialize(c)
    ensures ReadLine(f + Framed(c), |f|) == Framed(c)
  {
    SingleLineEnd(f, Serialize(c));
    SingleLine(f, Serialize(c));
  }

  // ---------------------------------------------------------------------
  // Replay

  /** Replaying a file extended by `g` first replays the terminated file
      itself and then continues at its end. */
  lemma {:induction false} ReplayFromAppend(dec: Decoder, f: string, g: string, off: nat, m0: map<string, nat>)
    requires Terminated(f) && off <= |f|
    ensures ReplayFrom(dec, f + g, off, m0)
         == match ReplayFrom(dec, f, off, m0)
            case None => None
            case Some(m) => ReplayFrom(dec, f + g, |f|, m)
    decreases |f| - off
  {
    if off < |f| {
      LineAtAppend(f, g, off);
      var line := LineAt(f, off);
      var next := off + |line| + 1;
      match dec(line)
      case None =>
      case Some(c) =>
        ReplayFromAppend(dec, f, g, next, m0[c.key := off]);
        assert ReplayFrom(dec, f, off, m0) == ReplayFrom(dec, f, next, m0[c.key := off]);
        assert ReplayFrom(dec, f + g, off, m0) == ReplayFrom(dec, f + g, next, m0[c.key := off]);
    }
  }

  /** Reopen consistency for one append: replaying the file after a record
      is appended gives the old index with the record's key pointed at the
      offset where the record starts. */
  lemma ReplayAppend(f: string, c: Command, m: map<string, nat>)
    requires Terminated(f) && ReplayIndex(f) == Some(m)
    ensures ReplayIndex(f + Framed(c)) == Some(m[c.key := |f|])
    ensures Terminated(f + Framed(c))
  {
    var g := f + Framed(c);
    ReplayFromAppend(Parse, f, Framed(c), 0, map[]);
    FramedLine(f, c);
    ParseRoundTrip(c);
    assert ReplayFrom(Parse, g, |f|, m) == ReplayFrom(Parse, g, |g|, m[c.key := |f|]);
  }

  /** What replay from `off` with index `m0` leaves behind: every line from
      `off` on parses and its key is indexed at that line or a later one;
      every indexed key is either untouched from `m0` (no line from `off` on
      has it) or points at the last line from `off` on that has it. */
  lemma {:induction false} ReplayFromFacts(dec: Decoder, f: string, off: nat, m0: map<string, nat>, m: map<string, nat>)
    requires off >= |f| || IsLineStart(f, off)
    requires ReplayFrom(dec, f, off, m0) == Some(m)
    ensures m0.Keys <= m.Keys
    ensures forall p :: IsLineStart(f, p) && off <= p ==>
              KeyAt(dec, f, p).Some? && KeyAt(dec, f, p).value in m && p <= m[KeyAt(dec, f, p).value]
    ensures forall k :: k in m ==>
              (k in m0 && m[k] == m0[k] && NoKeyFrom(dec, f, off, k))
              || (off <= m[k] && IsLineStart(f, m[k]) && KeyAt(dec, f, m[k]) == Some(k)
                  && NoKeyFrom(dec, f, m[k] + 1, k))
    decreases |f| - off
  {
    if off < |f| {
      var line := LineAt(f, off);
      var c := dec(line).value;
      var next := off + |line| + 1;
      var m1 := m0[c.key := off];
      assert next == LineEnd(f, off) + 1;
      ReplayFromFacts(dec, f, next, m1, m);
      forall p: nat | IsLineStart(f, p) && off < p
        ensures next <= p
      {
        NextLineStart(f, off, p);
      }
      assert KeyAt(dec, f, off) == Some(c.key);
    }
  }

  /** Last writer wins: after a successful replay each indexed key points at
      the last line carrying it, and every line's key is indexed. */
  lemma ReplayLastWriter(f: string, m: map<string, nat>)
    requires ReplayIndex(f) == Some(m)
    ensures forall p :: IsLineStart(f, p) ==> KeyAt(Parse, f, p).Some? && KeyAt(Parse, f, p).value in m
    ensures forall k :: k in m ==> IsLineStart(f, m[k]) && KeyAt(Parse, f, m[k]) == Some(k)
    ensures forall k, p :: k in m && IsLineStart(f, p) && m[k] < p ==>
              KeyAt(Parse, f, p).Some? && KeyAt(Parse, f, p) != Some(k)
  {
    ReplayFromFacts(Parse, f, 0, map[], m);
    forall k, p | k in m && IsLineStart(f, p) && m[k] < p
      ensures KeyAt(Parse, f, p).Some? && KeyAt(Parse, f, p) != Some(k)
    {
      assert NoKeyFrom(Parse, f, m[k] + 1, k);
    }
  }

  lemma {:induction false} ReplayFromFails(dec: Decoder, f: string, off: nat, m0: map<string, nat>)
    requires off >= |f| || IsLineStart(f, off)
    requires ReplayFrom(dec, f, off, m0).None?
    ensures exists p :: IsLineStart(f, p) && off <= p && KeyAt(dec, f, p).None?
    decreases |f| - off
  {
    var line := LineAt(f, off);
    if dec(line).None? {
      assert KeyAt(dec, f, off).None?;
    } else {
      var c := dec(line).value;
      ReplayFromFails(dec, f, off + |line| + 1, m0[c.key := off]);
    }
  }

  /** Replay fails exactly when some line of the file does not parse. */
  lemma ReplayFails(f: string)
    ensures ReplayIndex(f).None? <==> exists p :: IsLineStart(f, p) && KeyAt(Parse, f, p).None?
  {
    if ReplayIndex(f).None? {
      ReplayFromFails(Parse, f, 0, map[]);
    } else {
      ReplayLastWriter(f, ReplayIndex(f).value);
    }
  }

  // ---------------------------------------------------------------------
  // Reading one record back

  /** In a terminated file, seeking to a line start and reading one line
      gives the record of that line. */
  lemma RecordAtLineStart(f: string, p: nat)
    requires Terminated(f) && p < |f| && Parse(LineAt(f, p)).Some?
    ensures RecordAt(f, p) == Parse(LineAt(f, p))
  {
    TerminatedLineEnd(f, p);
    assert ReadLine(f, p) == LineAt(f, p) + "\n";
    ParseExtend(LineAt(f, p), "\n");
  }

  /** Appending leaves every record inside a terminated file readable as before. */
  lemma RecordAtAppend(f: string, g: string, p: nat)
    requires Terminated(f) && p < |f|
    ensures RecordAt(f + g, p) == RecordAt(f, p)
  {
    TerminatedLineEnd(f, p);
    LineEndAppend(f, g, p);
    assert ReadLine(f + g, p) == ReadLine(f, p);
  }

  /** The record just appended is read back at the old end of file. */
  lemma RecordAtFramed(f: string, c: Command)
    ensures RecordAt(f + Framed(c), |f|) == Some(c)
  {
    FramedLine(f, c);
    ParseSerialize(c, "\n");
  }

  /** After a successful replay of a terminated file, every indexed offset
      holds a record with that key. */
  lemma IndexedRecord(f: string, m: map<string, nat>, k: string)
    requires Terminated(f) && ReplayIndex(f) == Some(m) && k in m
    ensures m[k] < |f| && RecordAt(f, m[k]).Some? && RecordAt(f, m[k]).value.key == k
  {
    ReplayLastWriter(f, m);
    RecordAtLineStart(f, m[k]);
  }

  /** Repointing one key at a record read as `c`, while every other indexed
      record reads as before, updates the live contents like a map. */
  lemma LiveValuesRepoint(f: string, m: map<string, nat>, f': string, k0: string, off: nat, c: Command)
    requires RecordAt(f', off) == Some(c)
    requires forall k :: k in m && k != k0 ==> RecordAt(f', m[k]) == RecordAt(f, m[k])
    ensures LiveValues(f', m[k0 := off])
         == if c.action == Set then LiveValues(f, m)[k0 := c.value] else LiveValues(f, m) - {k0}
  {
    var live, live' := LiveValues(f, m), LiveValues(f', m[k0 := off]);
    var expected := if c.action == Set then live[k0 := c.value] else live - {k0};
    forall k
      ensures k in live' <==> k in expected
      ensures k in live' ==> live'[k] == expected[k]
    {
    }
    assert live' == expected;
  }

  /** Appending a record and pointing its key at it updates the live
      contents like a map: a Set binds the key, any other action unbinds it,
      and every other key keeps its value. */
  lemma LiveAfterAppend(f: string, m: map<string, nat>, c: Command)
    requires Terminated(f) && ReplayIndex(f) == Some(m)
    ensures LiveValues(f + Framed(c), m[c.key := |f|])
         == if c.action == Set then LiveValues(f, m)[c.key := c.value]
            else LiveValues(f, m) - {c.key}
  {
    var f' := f + Framed(c);
    RecordAtFramed(f, c);
    forall k | k in m && k != c.key
      ensures RecordAt(f', m[k]) == RecordAt(f, m[k])
    {
      IndexedRecord(f, m, k);
      RecordAtAppend(f, Framed(c), m[k]);
    }
    LiveValuesRepoint(f, m, f', c.key, |f|, c);
  }

  // ---------------------------------------------------------------------
  // A file whose last line has no newline

  /** A serialized record never reads as whitespace: it opens with a brace. */
  lemma SerializedNotBlank(c: Command, t: string)
    ensures !IsBlank(Serialize(c) + t)
  {
    assert (Serialize(c) + t)[0] == ActionField[0] == '{';
  }

  /** A file whose last record lacks its newline still replays, but the
      next append is glued onto that record: the record can no longer be
      read back and the file no longer replays. */
  lemma UnterminatedTailBreaksAppend(c0: Command, c: Command)
    ensures ReplayIndex(Serialize(c0)) == Some(map[c0.key := 0])
    ensures RecordAt(Serialize(c0) + Framed(c), 0).None?
    ensures ReplayIndex(Serialize(c0) + Framed(c)).None?
  {
    var s0, s := Serialize(c0), Serialize(c);
    // the unterminated file: one line, which parses
    forall i | 0 <= i < |s0| ensures s0[i] != '\n' { }
    assert LineAt(s0, 0) == s0;
    ParseRoundTrip(c0);
    assert ReplayFrom(Parse, s0, 0, map[]) == ReplayFrom(Parse, s0, |s0| + 1, map[c0.key := 0]);
    // after the append: the first line is both records glued together
    var glued := s0 + s;
    assert '\n' !in glued;
    SingleLine([], glued);
    assert [] + (glued + "\n") == s0 + Framed(c);
    assert glued + "\n" == s0 + (s + "\n");
    SerializedNotBlank(c, []);
    assert s + [] == s;
    SerializedNotBlank(c, "\n");
    ParseSerialize(c0, s);
    ParseSerialize(c0, s + "\n");
  }

  /** Adding the missing newline leaves every line where it was. */
  lemma LineAtTerminate(f: string, off: nat)
    requires !Terminated(f) && off < |f|
    ensures LineEnd(f + "\n", off) == LineEnd(f, off)
    ensures LineAt(f + "\n", off) == LineAt(f, off)
  {
    var g := f + "\n";
    if LineEnd(f, off) < |f| {
      LineEndAppend(f, "\n", off);
    } else {
      assert g[|f|] == '\n';
      LineEndScan(f, off);
      forall i | off <= i < |f| ensures g[i] != '\n' {
        assert g[i] == f[i];
      }
      LineEndIs(g, off, |f|);
    }
    assert g[off..LineEnd(f, off)] == f[off..LineEnd(f, off)];
  }

  /** Terminating the last line changes nothing the replay sees. */
  lemma {:induction false} ReplayFromTerminate(dec: Decoder, f: string, off: nat, m0: map<string, nat>)
    requires !Terminated(f)
    requires off == 0 || off > |f| || f[off - 1] == '\n'
    ensures ReplayFrom(dec, f + "\n", off, m0) == ReplayFrom(dec, f, off, m0)
    decreases |f| - off
  {
    if off < |f| {
      LineAtTerminate(f, off);
      var line := LineAt(f, off);
      match dec(line)
      case None =>
      case Some(c) =>
        ReplayFromTerminate(dec, f, off + |line| + 1, m0[c.key := off]);
    }
  }

  lemma ReplayTerminate(f: string)
    requires !Terminated(f)
    ensures ReplayIndex(f + "\n") == ReplayIndex(f)
    ensures Terminated(f + "\n")
  {
    ReplayFromTerminate(Parse, f, 0, map[]);
  }
}
