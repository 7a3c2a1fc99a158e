/** The commit log: what Append writes and what Recover makes of it.

    A segment file is its list of lines. Segments are listed in the order of their names, which is
    the order they were opened in. */
module CommitLog {
  import opened GoStrings
  import opened Encoding
  import opened SSTableFormat
  import opened StorageEngine
  import opened MemTables
  import opened SkipLists

  /** JSON and CRC-32 for log entries. */
  datatype LogCodec = LogCodec(marshal: LogEntry -> Str, unmarshal: Str -> Option<LogEntry>, crc: Str -> nat)

  /** Parsing undoes printing and no printed entry is empty. */
  ghost predicate SoundLog(c: LogCodec) {
    && (forall e :: c.unmarshal(c.marshal(e)) == Some(e))
    && (forall e :: c.marshal(e) != [])
  }

  /** The longest line the recovery scanner accepts: its 10 MiB buffer less the newline. */
  const MAX_LINE := 10 * 1024 * 1024 - 1

  /** An entry with its checksum, which covers the entry printed with checksum 0. */
  function Sealed(c: LogCodec, e: LogEntry): (r: LogEntry) {
    e.(checksum := c.crc(c.marshal(e.(checksum := 0))))
  }

  function LineOf(c: LogCodec, e: LogEntry): (line: Str) { c.marshal(Sealed(c, e)) }

  // ---------- recovery as a function ----------

  /** One line: nothing if it is empty, does not parse, or carries a nonzero checksum that is wrong. */
  function Parse(c: LogCodec, line: Str): (r: Option<LogEntry>) {
    if line == [] then None
    else match c.unmarshal(line)
      case None => None
      case Some(e) => if e.checksum != 0 && c.crc(c.marshal(e.(checksum := 0))) != e.checksum then None else Some(e)
  }

  /** The line prints `e`, with no checksum or the right one. */
  ghost predicate Genuine(c: LogCodec, line: Str, e: LogEntry) {
    && line != [] && c.unmarshal(line) == Some(e)
    && (e.checksum == 0 || c.crc(c.marshal(e.(checksum := 0))) == e.checksum)
  }

  /** The line prints nothing, or an entry that does not match the checksum it carries. */
  ghost predicate Damaged(c: LogCodec, line: Str) {
    || line == [] || c.unmarshal(line).None?
    || (var e := c.unmarshal(line).value; e.checksum != 0 && c.crc(c.marshal(e.(checksum := 0))) != e.checksum)
  }

  /** A line is taken for what it prints exactly if it is genuine, and otherwise refused. */
  lemma ParsesIff(c: LogCodec, line: Str)
    ensures Parse(c, line).None? <==> Damaged(c, line)
    ensures forall e :: Parse(c, line) == Some(e) <==> Genuine(c, line, e)
  {
  }

  /** A checksum other than 0 gives away any change: a line that carries it but prints an entry with
      another one is refused. */
  lemma SealGivesAwayChange(c: LogCodec, e: LogEntry, line: Str)
    requires c.crc(c.marshal(e.(checksum := 0))) != 0 && c.unmarshal(line).Some?
    requires c.unmarshal(line).value.checksum == Sealed(c, e).checksum
    requires c.crc(c.marshal(c.unmarshal(line).value.(checksum := 0))) != c.crc(c.marshal(e.(checksum := 0)))
    ensures Damaged(c, line) && Parse(c, line).None?
  {
  }

  predicate Readable(lines: seq<Str>) {
    forall i :: 0 <= i < |lines| ==> |lines[i]| <= MAX_LINE
  }

  /** The position of the first line that is too long. */
  function FirstLong(lines: seq<Str>): (n: nat)
    ensures n <= |lines|
    ensures forall i :: 0 <= i < n ==> |lines[i]| <= MAX_LINE
    ensures n < |lines| ==> |lines[n]| > MAX_LINE
  {
    if lines == [] || |lines[0]| > MAX_LINE then 0 else 1 + FirstLong(lines[1..])
  }

  /** The entries replayed from a segment: the scan stops at the first line that is too long. */
  function Replayed(c: LogCodec, lines: seq<Str>): (es: seq<LogEntry>) {
    if lines == [] || |lines[0]| > MAX_LINE then []
    else (if Parse(c, lines[0]).Some? then [Parse(c, lines[0]).value] else []) + Replayed(c, lines[1..])
  }

  function ReplayedAll(c: LogCodec, segments: seq<seq<Str>>): (es: seq<LogEntry>) {
    if segments == [] then [] else ReplayedAll(c, segments[..|segments| - 1]) + Replayed(c, segments[|segments| - 1])
  }

  function Max(a: Uint64, b: Uint64): (m: Uint64) { if a > b then a else b }

  function MaxSeq(es: seq<LogEntry>): (m: Uint64) {
    if es == [] then 0 else Max(MaxSeq(es[..|es| - 1]), es[|es| - 1].seqNo)
  }

  /** The counter after recovery. A segment whose scan failed does not count. */
  function RecoveredCounter(c: LogCodec, segments: seq<seq<Str>>): (n: Uint64) {
    if segments == [] then 0
    else
      var init, last := segments[..|segments| - 1], segments[|segments| - 1];
      if Readable(last) then Max(RecoveredCounter(c, init), MaxSeq(Replayed(c, last))) else RecoveredCounter(c, init)
  }

  /** Replaying on top of a table. */
  ghost function ReplayOnto(m: Table, es: seq<LogEntry>): (m': Table)
    decreases |es|
  {
    if es == [] then m else ReplayOnto(m, es[..|es| - 1])[CompositeKey(es[|es| - 1]) := EntryOf(es[|es| - 1])]
  }

  lemma {:induction false} ReplayOntoEmpty(es: seq<LogEntry>)
    ensures ReplayOnto(map[], es) == Replay(es)
  {
    if es != [] { ReplayOntoEmpty(es[..|es| - 1]); }
  }

  lemma {:induction false} ReplayOntoConcat(m: Table, a: seq<LogEntry>, b: seq<LogEntry>)
    ensures ReplayOnto(m, a + b) == ReplayOnto(ReplayOnto(m, a), b)
    decreases |b|
  {
    if b == [] {
      assert a + b == a;
    } else {
      ReplayOntoConcat(m, a, b[..|b| - 1]);
      assert (a + b)[..|a + b| - 1] == a + b[..|b| - 1];
    }
  }

  // ---------- what is written reads back ----------

  function Lines(c: LogCodec, es: seq<LogEntry>): (lines: seq<Str>)
    ensures |lines| == |es|
  {
    seq(|es|, i requires 0 <= i < |es| => LineOf(c, es[i]))
  }

  function SealedAll(c: LogCodec, es: seq<LogEntry>): (r: seq<LogEntry>)
    ensures |r| == |es|
  {
    seq(|es|, i requires 0 <= i < |es| => Sealed(c, es[i]))
  }

  lemma ParseUndoesSeal(c: LogCodec, e: LogEntry)
    requires SoundLog(c)
    ensures Parse(c, LineOf(c, e)) == Some(Sealed(c, e))
  {
    assert Sealed(c, e).(checksum := 0) == e.(checksum := 0);
    assert c.unmarshal(c.marshal(Sealed(c, e))) == Some(Sealed(c, e));
  }

  /** A segment reads back up to its first line that is too long, hence in full exactly if there is
      none; from that line on everything is lost. */
  lemma SegmentReadsBackIff(c: LogCodec, es: seq<LogEntry>)
    requires SoundLog(c)
    ensures Replayed(c, Lines(c, es)) == SealedAll(c, es)[..FirstLong(Lines(c, es))]
    ensures Replayed(c, Lines(c, es)) == SealedAll(c, es) <==> Readable(Lines(c, es))
  {
    hide SoundLog, Parse, Sealed, LineOf, Replayed, FirstLong;
    var lines, sealed := Lines(c, es), SealedAll(c, es);
    forall i | 0 <= i < |es| ensures Parse(c, lines[i]) == Some(sealed[i]) { ParseUndoesSeal(c, es[i]); }
    ReplayedUpTo(c, lines, sealed);
    assert Readable(lines) <==> FirstLong(lines) == |lines|;
  }

  lemma {:induction false} ReplayedUpTo(c: LogCodec, lines: seq<Str>, es: seq<LogEntry>)
    requires |lines| == |es| && forall i :: 0 <= i < |es| ==> Parse(c, lines[i]) == Some(es[i])
    ensures Replayed(c, lines) == es[..FirstLong(lines)]
  {
    hide Parse;
    if lines != [] && |lines[0]| <= MAX_LINE {
      ReplayedUpTo(c, lines[1..], es[1..]);
      assert es[..FirstLong(lines)] == [es[0]] + es[1..][..FirstLong(lines[1..])];
    }
  }

  /** A damaged line loses its own entry and no other. */
  lemma {:induction false} ReplayedConcat(c: LogCodec, a: seq<Str>, b: seq<Str>)
    requires Readable(a)
    ensures Replayed(c, a + b) == Replayed(c, a) + Replayed(c, b)
  {
    if a == [] {
      assert a + b == b;
    } else {
      ReplayedConcat(c, a[1..], b);
      assert (a + b)[1..] == a[1..] + b;
    }
  }

  lemma DamagedLineIsSkipped(c: LogCodec, before: seq<Str>, line: Str, after: seq<Str>)
    requires Readable(before) && |line| <= MAX_LINE && Damaged(c, line)
    ensures Replayed(c, before + [line] + after) == Replayed(c, before) + Replayed(c, after)
  {
    ParsesIff(c, line);
    ReplayedConcat(c, before, [line] + after);
    assert before + [line] + after == before + ([line] + after);
    assert ([line] + after)[1..] == after;
  }

  /** Just what genuine lines print is replayed, up to the first line that is too long. */
  lemma {:induction false} ReplayedIsGenuine(c: LogCodec, lines: seq<Str>, e: LogEntry)
    ensures e in Replayed(c, lines) <==> exists i :: 0 <= i < FirstLong(lines) && Genuine(c, lines[i], e)
  {
    hide Genuine, Parse;
    if lines != [] && |lines[0]| <= MAX_LINE {
      ReplayedIsGenuine(c, lines[1..], e);
      ParsesIff(c, lines[0]);
      var rest := lines[1..];
      if i :| 0 <= i < FirstLong(rest) && Genuine(c, rest[i], e) { assert lines[i + 1] == rest[i]; }
      if i :| 0 <= i < FirstLong(lines) && Genuine(c, lines[i], e) { assert i > 0 ==> rest[i - 1] == lines[i]; }
    }
  }

  // ---------- sequence numbers across restarts ----------

  function AllLines(c: LogCodec, logged: seq<seq<LogEntry>>): (r: seq<seq<Str>>)
    ensures |r| == |logged|
  {
    seq(|logged|, i requires 0 <= i < |logged| => Lines(c, logged[i]))
  }

  ghost predicate AllReadable(c: LogCodec, logged: seq<seq<LogEntry>>) {
    forall i :: 0 <= i < |logged| ==> Readable(Lines(c, logged[i]))
  }

  lemma ReadableIsShort(c: LogCodec, logged: seq<seq<LogEntry>>)
    ensures AllReadable(c, logged) <==> AllShort(AllLines(c, logged))
  {
    hide Readable;
    assert forall i :: 0 <= i < |logged| ==> AllLines(c, logged)[i] == Lines(c, logged[i]);
  }

  ghost predicate AllSealed(c: LogCodec, logged: seq<seq<LogEntry>>) {
    forall i :: 0 <= i < |logged| ==> SealedAll(c, logged[i]) == logged[i]
  }

  /** The log is numbered 1, 2, 3 and so on up to the counter. */
  ghost predicate Counting(es: seq<LogEntry>, counter: Uint64) {
    counter == |es| && forall i :: 0 <= i < |es| ==> es[i].seqNo == i + 1
  }

  lemma {:induction false} MaxSeqBounds(es: seq<LogEntry>)
    ensures forall i :: 0 <= i < |es| ==> es[i].seqNo <= MaxSeq(es)
    ensures MaxSeq(es) == 0 || exists i :: 0 <= i < |es| && es[i].seqNo == MaxSeq(es)
  {
    if es != [] {
      var init := es[..|es| - 1];
      MaxSeqBounds(init);
      if MaxSeq(es) != 0 && MaxSeq(es) == MaxSeq(init) {
        var i :| 0 <= i < |init| && init[i].seqNo == MaxSeq(init);
        assert es[i] == init[i];
      }
      assert forall i :: 0 <= i < |init| ==> es[i] == init[i];
    }
  }

  // ---------- what survives ----------

  /** The line of an entry as it was written, or damaged since. */
  ghost predicate LineStands(c: LogCodec, e: LogEntry, line: Str, damaged: bool) {
    if damaged then Damaged(c, line) else line == LineOf(c, e)
  }

  ghost predicate SegmentStands(c: LogCodec, es: seq<LogEntry>, lines: seq<Str>, hit: set<nat>, from: nat) {
    |lines| == |es| && forall j :: 0 <= j < |es| ==> LineStands(c, es[j], lines[j], from + j in hit)
  }

  /** The segments on disk are those of the log, with the lines at the positions in `hit` damaged;
      positions count through the whole log. */
  ghost predicate Stands(c: LogCodec, logged: seq<seq<LogEntry>>, segments: seq<seq<Str>>, hit: set<nat>) {
    && |segments| == |logged|
    && (logged != [] ==>
          var n := |logged| - 1;
          && Stands(c, logged[..n], segments[..n], hit)
          && SegmentStands(c, logged[n], segments[n], hit, |Flat(logged[..n])|))
  }

  lemma {:induction false} IntactStands(c: LogCodec, logged: seq<seq<LogEntry>>)
    ensures Stands(c, logged, AllLines(c, logged), {})
  {
    if logged != [] {
      IntactStands(c, logged[..|logged| - 1]);
      assert AllLines(c, logged)[..|logged| - 1] == AllLines(c, logged[..|logged| - 1]);
    }
  }

  lemma {:induction false} StandsInLength(c: LogCodec, logged: seq<seq<LogEntry>>, segments: seq<seq<Str>>,
        hit: set<nat>)
    requires Stands(c, logged, segments, hit)
    ensures |Flat(segments)| == |Flat(logged)|
  {
    hide LineStands;
    if logged != [] { StandsInLength(c, logged[..|logged| - 1], segments[..|logged| - 1], hit); }
  }

  ghost predicate InTail(i: nat, from: nat, to: nat) { from <= i < to }

  /** The positions, in the whole log, of the lines from the first long one of their segment on. */
  ghost function Lost(segments: seq<seq<Str>>): (lost: set<nat>) {
    if segments == [] then {}
    else
      var init, last := segments[..|segments| - 1], segments[|segments| - 1];
      var from, to := |Flat(init)| + FirstLong(last), |Flat(init)| + |last|;
      Lost(init) + set i: nat | i < to && InTail(i, from, to)
  }

  /** The log without the entries at the positions in `out`. */
  ghost function Survivors(log: seq<LogEntry>, out: set<nat>): (es: seq<LogEntry>) {
    if log == [] then []
    else Survivors(log[..|log| - 1], out) + if |log| - 1 in out then [] else [log[|log| - 1]]
  }

  lemma {:induction false} LostAreLogged(segments: seq<seq<Str>>)
    ensures forall i :: i in Lost(segments) ==> i < |Flat(segments)|
  {
    hide FirstLong;
    if segments != [] { LostAreLogged(segments[..|segments| - 1]); }
  }

  /** A line is lost exactly if it or an earlier one of its segment is too long. */
  lemma {:induction false} LostIff(segments: seq<seq<Str>>, m: nat, j: nat)
    requires m < |segments| && j < |segments[m]|
    ensures |Flat(segments[..m])| + j in Lost(segments) <==> exists l :: 0 <= l <= j && |segments[m][l]| >= 10485760
  {
    var init, last := segments[..|segments| - 1], segments[|segments| - 1];
    if m < |init| {
      assert init[..m] == segments[..m] && init[m] == segments[m];
      LostIff(init, m, j);
      SegmentWithin(init, m);
    } else {
      LostAreLogged(init);
      var n := FirstLong(last);
      assert n <= j ==> |last[n]| > MAX_LINE;
    }
  }

  lemma {:induction false} SegmentWithin<T>(ss: seq<seq<T>>, m: nat)
    requires m < |ss|
    ensures |Flat(ss[..m])| + |ss[m]| <= |Flat(ss)|
  {
    if m < |ss| - 1 {
      SegmentWithin(ss[..|ss| - 1], m);
      assert ss[..|ss| - 1][..m] == ss[..m];
    }
  }

  ghost predicate AllShort(segments: seq<seq<Str>>) {
    forall i :: 0 <= i < |segments| ==> Readable(segments[i])
  }

  lemma {:induction false} NothingLostIff(segments: seq<seq<Str>>)
    ensures Lost(segments) == {} <==> AllShort(segments)
  {
    hide FirstLong;
    if segments != [] {
      var init, last := segments[..|segments| - 1], segments[|segments| - 1];
      NothingLostIff(init);
      var from, to := |Flat(init)| + FirstLong(last), |Flat(init)| + |last|;
      assert Readable(last) <==> FirstLong(last) == |last|;
      if from < to { assert from in Lost(segments); }
      assert AllShort(segments) <==> AllShort(init) && Readable(last);
    }
  }

  lemma {:induction false} SameSurvivors(log: seq<LogEntry>, a: set<nat>, b: set<nat>)
    requires forall i :: 0 <= i < |log| ==> (i in a <==> i in b)
    ensures Survivors(log, a) == Survivors(log, b)
  {
    if log != [] { SameSurvivors(log[..|log| - 1], a, b); }
  }

  lemma {:induction false} AllSurviveIff(log: seq<LogEntry>, out: set<nat>)
    ensures |Survivors(log, out)| <= |log|
    ensures Survivors(log, out) == log <==> forall i :: 0 <= i < |log| ==> i !in out
  {
    if log != [] { AllSurviveIff(log[..|log| - 1], out); }
  }

  /** The part of a segment before its first long line: what is not damaged survives. */
  lemma {:induction false} ReadPart(c: LogCodec, a: seq<LogEntry>, b: seq<LogEntry>, lines: seq<Str>, hit: set<nat>,
        out: set<nat>, j: nat)
    requires SoundLog(c) && SealedAll(c, b) == b && SegmentStands(c, b, lines, hit, |a|) && j <= FirstLong(lines)
    requires forall i :: |a| <= i < |a| + j ==> (i in out <==> i in hit)
    ensures Survivors(a + b[..j], out) == Survivors(a, out) + Replayed(c, lines[..j])
    decreases j
  {
    hide SoundLog, Parse, Replayed, FirstLong;
    if j == 0 {
      assert a + b[..0] == a && lines[..0] == [];
      EmptyScan(c, map[]);
    } else {
      ReadPart(c, a, b, lines, hit, out, j - 1);
      ReplayedNext(c, lines, j - 1);
      assert LineStands(c, b[j - 1], lines[j - 1], |a| + (j - 1) in hit);
      ParsesIff(c, lines[j - 1]);
      ParseUndoesSeal(c, b[j - 1]);
      assert SealedAll(c, b)[j - 1] == b[j - 1];
      OneMoreSurvivor(a + b[..j - 1], a + b[..j], out);
    }
  }

  lemma OneMoreSurvivor(init: seq<LogEntry>, log: seq<LogEntry>, out: set<nat>)
    requires log != [] && init == log[..|log| - 1]
    ensures Survivors(log, out) == Survivors(init, out) + if |init| in out then [] else [log[|init|]]
  {
  }

  /** The part from the first long line on: nothing survives. */
  lemma {:induction false} UnreadPart(a: seq<LogEntry>, b: seq<LogEntry>, out: set<nat>, n: nat, j: nat)
    requires n <= j <= |b| && forall i :: |a| + n <= i < |a| + |b| ==> i in out
    ensures Survivors(a + b[..j], out) == Survivors(a + b[..n], out)
    decreases j
  {
    if n < j {
      UnreadPart(a, b, out, n, j - 1);
      assert (a + b[..j])[..|a| + j - 1] == a + b[..j - 1];
    }
  }

  lemma SegmentSurvives(c: LogCodec, a: seq<LogEntry>, b: seq<LogEntry>, lines: seq<Str>, hit: set<nat>, out: set<nat>)
    requires SoundLog(c) && SealedAll(c, b) == b && SegmentStands(c, b, lines, hit, |a|)
    requires forall i :: |a| <= i < |a| + |b| ==> (i in out <==> i in hit || |a| + FirstLong(lines) <= i)
    ensures Survivors(a + b, out) == Survivors(a, out) + Replayed(c, lines)
  {
    hide SoundLog, Replayed, Survivors, SegmentStands, FirstLong;
    var n := FirstLong(lines);
    assert |lines| == |b| by { StandsAlong(c, b, lines, hit, |a|); }
    ReadPart(c, a, b, lines, hit, out, n);
    UnreadPart(a, b, out, n, |b|);
    assert b[..|b|] == b;
    if n < |lines| { ReplayedNext(c, lines, n); } else { assert lines[..n] == lines; }
  }

  lemma StandsAlong(c: LogCodec, es: seq<LogEntry>, lines: seq<Str>, hit: set<nat>, from: nat)
    requires SegmentStands(c, es, lines, hit, from)
    ensures |lines| == |es|
  {
  }

  /** Recovery replays just the entries whose lines are neither damaged nor lost, in their order. */
  lemma {:induction false} RecoveredIsSurvivors(c: LogCodec, logged: seq<seq<LogEntry>>, segments: seq<seq<Str>>,
        hit: set<nat>)
    requires SoundLog(c) && AllSealed(c, logged) && Stands(c, logged, segments, hit)
    ensures ReplayedAll(c, segments) == Survivors(Flat(logged), Lost(segments) + hit)
  {
    hide SoundLog, FirstLong, SealedAll, Replayed, SegmentStands;
    if logged != [] {
      var n := |logged| - 1;
      var init, last, lines := logged[..n], logged[n], segments[n];
      RecoveredIsSurvivors(c, init, segments[..n], hit);
      LostAreLogged(segments[..n]);
      StandsInLength(c, init, segments[..n], hit);
      StandsAlong(c, last, lines, hit, |Flat(init)|);
      LastSegmentLost(segments);
      SameSurvivors(Flat(init), Lost(segments[..n]) + hit, Lost(segments) + hit);
      SegmentSurvives(c, Flat(init), last, lines, hit, Lost(segments) + hit);
    }
  }

  lemma LastSegmentLost(segments: seq<seq<Str>>)
    requires segments != []
    ensures var n := |segments| - 1; var from := |Flat(segments[..n])|;
            && (forall i :: 0 <= i < from ==> (i in Lost(segments) <==> i in Lost(segments[..n])))
            && forall i :: from <= i < from + |segments[n]| ==>
                 (i in Lost(segments) <==> from + FirstLong(segments[n]) <= i)
  {
    hide FirstLong;
    LostAreLogged(segments[..|segments| - 1]);
  }

  /** It replays the whole log exactly if no line is too long or damaged. */
  lemma RecoveredIsAllIff(c: LogCodec, logged: seq<seq<LogEntry>>, segments: seq<seq<Str>>, hit: set<nat>)
    requires SoundLog(c) && AllSealed(c, logged) && Stands(c, logged, segments, hit)
    ensures ReplayedAll(c, segments) == Flat(logged) <==>
            AllShort(segments) && forall i :: 0 <= i < |Flat(logged)| ==> i !in hit
  {
    hide SoundLog, AllSealed, Stands, ReplayedAll, Survivors, Flat;
    RecoveredIsSurvivors(c, logged, segments, hit);
    AllSurviveIff(Flat(logged), Lost(segments) + hit);
    NothingLostIff(segments);
    LostAreLogged(segments);
    StandsInLength(c, logged, segments, hit);
  }

  lemma {:induction false} SurvivorsReplay(log: seq<LogEntry>, out: set<nat>, k: Str)
    ensures Lookup(Replay(Survivors(log, out)), k) == Version(log, LastOf(log, out, k))
  {
    hide CompositeKey, EntryOf, Replay, OnKey;
    if log == [] {
      EmptyReplay();
    } else {
      var init, e := log[..|log| - 1], log[|log| - 1];
      SurvivorsReplay(init, out, k);
      LastOfIs(init, out, k);
      KeyIndex(init, k, LastOf(init, out, k));
      var kept := Survivors(init, out);
      if |init| in out {
        assert Survivors(log, out) == kept;
      } else {
        ReplayOne(kept, e);
      }
    }
  }

  lemma EmptyReplay()
    ensures Replay([]) == map[]
  {
  }

  lemma ReplayOne(es: seq<LogEntry>, e: LogEntry)
    ensures Replay(es + [e]) == Replay(es)[CompositeKey(e) := EntryOf(e)]
  {
    assert (es + [e])[..|es|] == es;
  }

  /** Recovery gives a key the version of its last operation whose line is neither damaged nor lost. So
      it restores the key exactly if that is its last operation, or one that left the same entry. */
  lemma KeyRestoredIff(c: LogCodec, logged: seq<seq<LogEntry>>, segments: seq<seq<Str>>, hit: set<nat>, k: Str)
    requires SoundLog(c) && AllSealed(c, logged) && Stands(c, logged, segments, hit)
    ensures var log, out, recovered := Flat(logged), Lost(segments) + hit, ReplayOnto(map[], ReplayedAll(c, segments));
            var last, kept := LastOf(log, {}, k), LastOf(log, out, k);
            && Lookup(recovered, k) == Version(log, kept)
            && (Lookup(recovered, k) == Lookup(Replay(log), k) <==>
                last.None? || last.value !in out || (kept.Some? && Version(log, kept) == Version(log, last)))
  {
    hide SoundLog, AllSealed, Stands, CompositeKey, EntryOf, Survivors, Replay, OnKey, Lost;
    var log, out := Flat(logged), Lost(segments) + hit;
    RecoveredIsSurvivors(c, logged, segments, hit);
    ReplayOntoEmpty(Survivors(log, out));
    SurvivorsReplay(log, out, k);
    ReplayIsLastOf(log, k);
    LastOfIs(log, {}, k);
    LastOfIs(log, out, k);
    KeyIndex(log, k, LastOf(log, {}, k));
    KeyIndex(log, k, LastOf(log, out, k));
  }

  lemma KeyIndex(log: seq<LogEntry>, k: Str, i: Option<nat>)
    requires i.Some? ==> OnKey(log, i.value, k)
    ensures i.Some? ==> i.value < |log|
  {
  }

  lemma {:induction false} MaxSeqConcat(a: seq<LogEntry>, b: seq<LogEntry>)
    ensures MaxSeq(a + b) == Max(MaxSeq(a), MaxSeq(b))
    decreases |b|
  {
    if b == [] {
      assert a + b == a;
    } else {
      MaxSeqConcat(a, b[..|b| - 1]);
      assert (a + b)[..|a + b| - 1] == a + b[..|b| - 1];
    }
  }

  /** Recovering a log none of whose lines is too long or damaged replays every entry, in order, and
      resumes the counter where it stood. */
  lemma RecoveryResumes(c: LogCodec, logged: seq<seq<LogEntry>>, counter: Uint64)
    requires SoundLog(c) && AllSealed(c, logged) && AllReadable(c, logged) && Counting(Flat(logged), counter)
    ensures ReplayOnto(map[], ReplayedAll(c, AllLines(c, logged))) == Replay(Flat(logged))
    ensures RecoveredCounter(c, AllLines(c, logged)) == counter
  {
    hide SoundLog, AllSealed, RecoveredCounter, ReplayedAll, Lines;
    IntactStands(c, logged);
    ReadableIsShort(c, logged);
    RecoveredIsAllIff(c, logged, AllLines(c, logged), {});
    ReplayOntoEmpty(Flat(logged));
    if Flat(logged) != [] {
      CounterResumesIff(c, logged, AllLines(c, logged), {}, counter);
    } else {
      CounterBelow(c, logged, AllLines(c, logged), {});
    }
  }

  /** A damaged line never moves the counter up. */
  lemma {:induction false} CounterBelow(c: LogCodec, logged: seq<seq<LogEntry>>, segments: seq<seq<Str>>, hit: set<nat>)
    requires SoundLog(c) && AllSealed(c, logged) && Stands(c, logged, segments, hit)
    ensures RecoveredCounter(c, segments) <= MaxSeq(Flat(logged))
  {
    hide SoundLog, SealedAll, Replayed, SegmentStands, MaxSeq;
    if logged == [] {
      EmptyScan(c, map[]);
    } else {
      var n := |logged| - 1;
      CounterBelow(c, logged[..n], segments[..n], hit);
      SegmentDelivers(c, logged[n], segments[n], hit, |Flat(logged[..n])|);
      DeliveredBelow(logged[n], Replayed(c, segments[n]), hit, |Flat(logged[..n])|);
      MaxSeqConcat(Flat(logged[..n]), logged[n]);
    }
  }

  /** `e` is an entry whose line is not damaged. */
  ghost predicate Unhit(es: seq<LogEntry>, hit: set<nat>, from: nat, e: LogEntry) {
    exists j :: 0 <= j < |es| && e == es[j] && from + j !in hit
  }

  /** What a segment's scan delivers was written and is not damaged; the last entry is delivered if
      its line is read. */
  lemma SegmentDelivers(c: LogCodec, es: seq<LogEntry>, lines: seq<Str>, hit: set<nat>, from: nat)
    requires SoundLog(c) && SealedAll(c, es) == es && SegmentStands(c, es, lines, hit, from)
    ensures es != [] && Readable(lines) && from + |es| - 1 !in hit ==> es[|es| - 1] in Replayed(c, lines)
    ensures forall e :: e in Replayed(c, lines) ==> Unhit(es, hit, from, e)
  {
    hide SoundLog, Replayed, FirstLong, Genuine, SealedAll, SegmentStands;
    StandsAlong(c, es, lines, hit, from);
    forall e | e in Replayed(c, lines) ensures Unhit(es, hit, from, e) {
      ReplayedIsGenuine(c, lines, e);
      var j :| 0 <= j < FirstLong(lines) && Genuine(c, lines[j], e);
      StandingLine(c, es, lines, hit, from, j);
    }
    if es != [] && Readable(lines) && from + |es| - 1 !in hit {
      var j := |es| - 1;
      StandingLine(c, es, lines, hit, from, j);
      assert Genuine(c, lines[j], es[j]);
      assert FirstLong(lines) == |lines|;
      ReplayedIsGenuine(c, lines, es[j]);
    }
  }

  lemma DeliveredBelow(es: seq<LogEntry>, read: seq<LogEntry>, hit: set<nat>, from: nat)
    requires forall e :: e in read ==> Unhit(es, hit, from, e)
    ensures MaxSeq(read) <= MaxSeq(es)
  {
    hide MaxSeq;
    MaxSeqBounds(read);
    MaxSeqBounds(es);
    if MaxSeq(read) != 0 {
      var i :| 0 <= i < |read| && read[i].seqNo == MaxSeq(read);
      assert Unhit(es, hit, from, read[i]);
    }
  }

  lemma StandingLine(c: LogCodec, es: seq<LogEntry>, lines: seq<Str>, hit: set<nat>, from: nat, j: nat)
    requires SoundLog(c) && SealedAll(c, es) == es && SegmentStands(c, es, lines, hit, from) && j < |es|
    ensures |lines| == |es|
    ensures from + j in hit ==> forall e :: !Genuine(c, lines[j], e)
    ensures from + j !in hit ==> forall e :: Genuine(c, lines[j], e) <==> e == es[j]
  {
    hide SoundLog, Parse, Genuine;
    assert LineStands(c, es[j], lines[j], from + j in hit);
    ParsesIff(c, lines[j]);
    ParseUndoesSeal(c, es[j]);
    assert SealedAll(c, es)[j] == es[j];
  }

  lemma CountingSplit(a: seq<LogEntry>, b: seq<LogEntry>, counter: Uint64)
    requires Counting(a + b, counter) && b != []
    ensures MaxSeq(a) < MaxSeq(b) == counter
  {
    var all := a + b;
    assert all[|all| - 1] == b[|b| - 1];
    MaxSeqBounds(a);
    MaxSeqBounds(b);
    assert forall i :: 0 <= i < |a| ==> a[i] == all[i];
    assert forall i :: 0 <= i < |b| ==> b[i] == all[|a| + i];
  }

  /** The last segment with an entry in it. */
  ghost function LastUsed(logged: seq<seq<LogEntry>>): (m: nat)
    requires Flat(logged) != []
    ensures m < |logged| && logged[m] != [] && forall i :: m < i < |logged| ==> logged[i] == []
  {
    if logged[|logged| - 1] != [] then |logged| - 1 else LastUsed(logged[..|logged| - 1])
  }

  /** Recovery resumes the counter exactly if no line of the last segment in use is too long and its
      last line is not damaged; otherwise it falls back, and the next number given out is one already
      in the log. */
  lemma {:induction false} CounterResumesIff(c: LogCodec, logged: seq<seq<LogEntry>>, segments: seq<seq<Str>>,
        hit: set<nat>, counter: Uint64)
    requires SoundLog(c) && AllSealed(c, logged) && Stands(c, logged, segments, hit)
    requires Counting(Flat(logged), counter) && Flat(logged) != []
    ensures var n := RecoveredCounter(c, segments);
            var resumes := Readable(segments[LastUsed(logged)]) && counter - 1 !in hit;
            (n == counter <==> resumes) && (!resumes ==> n < counter && Flat(logged)[n].seqNo == (n + 1) % TWO_64)
    decreases |logged|
  {
    hide SoundLog, RecoveredCounter, Readable, SealedAll, SegmentStands;
    var m := |logged| - 1;
    if logged[m] == [] {
      assert Flat(logged[..m]) == Flat(logged);
      CounterResumesIff(c, logged[..m], segments[..m], hit, counter);
      StandsAlong(c, logged[m], segments[m], hit, |Flat(logged[..m])|);
      SkipEmpty(c, segments);
    } else {
      CounterOfLast(c, logged, segments, hit, counter);
    }
  }

  lemma SkipEmpty(c: LogCodec, segments: seq<seq<Str>>)
    requires segments != [] && segments[|segments| - 1] == []
    ensures RecoveredCounter(c, segments) == RecoveredCounter(c, segments[..|segments| - 1])
  {
  }

  lemma CounterOfLast(c: LogCodec, logged: seq<seq<LogEntry>>, segments: seq<seq<Str>>, hit: set<nat>, counter: Uint64)
    requires SoundLog(c) && AllSealed(c, logged) && Stands(c, logged, segments, hit) && Counting(Flat(logged), counter)
    requires logged != [] && logged[|logged| - 1] != []
    ensures var n := RecoveredCounter(c, segments);
            && n <= counter
            && (n == counter <==> Readable(segments[|segments| - 1]) && counter - 1 !in hit)
  {
    hide SoundLog, Readable, SegmentStands, Replayed, MaxSeq;
    var m := |logged| - 1;
    var init, last, lines := logged[..m], logged[m], segments[m];
    CountingSplit(Flat(init), last, counter);
    CounterBelow(c, init, segments[..m], hit);
    SegmentDelivers(c, last, lines, hit, |Flat(init)|);
    DeliveredBelow(last, Replayed(c, lines), hit, |Flat(init)|);
    LastNumber(Flat(init), last, Replayed(c, lines), hit, counter);
    MaxSeqBounds(Replayed(c, lines));
  }

  /** The largest number is delivered exactly if the last entry is. */
  lemma LastNumber(a: seq<LogEntry>, b: seq<LogEntry>, es: seq<LogEntry>, hit: set<nat>, counter: Uint64)
    requires Counting(a + b, counter) && b != [] && forall e :: e in es ==> Unhit(b, hit, |a|, e)
    ensures |a| + |b| == counter
    ensures b[|b| - 1] in es ==> MaxSeq(es) == counter
    ensures MaxSeq(es) == counter ==> counter - 1 !in hit
  {
    hide MaxSeq, Unhit;
    CountingSplit(a, b, counter);
    MaxSeqBounds(es);
    DeliveredBelow(b, es, hit, |a|);
    assert b[|b| - 1] == (a + b)[counter - 1];
    if MaxSeq(es) == counter {
      var i :| 0 <= i < |es| && es[i].seqNo == counter;
      NumberIsPosition(a, b, hit, es[i], counter);
    }
  }

  lemma NumberIsPosition(a: seq<LogEntry>, b: seq<LogEntry>, hit: set<nat>, e: LogEntry, counter: Uint64)
    requires Counting(a + b, counter) && b != [] && Unhit(b, hit, |a|, e) && e.seqNo == counter
    ensures counter - 1 !in hit
  {
    var j :| 0 <= j < |b| && e == b[j] && |a| + j !in hit;
    assert b[j] == (a + b)[|a| + j];
  }

  /** One more entry, numbered from the counter. */
  lemma CountingAppend(es: seq<LogEntry>, counter: Uint64, e: LogEntry)
    requires Counting(es, counter) && counter + 1 < TWO_64 && e.seqNo == (counter + 1) % TWO_64
    ensures Counting(es + [e], e.seqNo)
  {
  }

  lemma AppendStands(c: LogCodec, logged: seq<seq<LogEntry>>, segments: seq<seq<Str>>, hit: set<nat>, e: LogEntry)
    requires logged != [] && Stands(c, logged, segments, hit) && |Flat(logged)| !in hit && Sealed(c, e) == e
    ensures var n := |logged| - 1;
            Stands(c, logged[n := logged[n] + [e]], segments[n := segments[n] + [c.marshal(e)]], hit)
  {
    hide Sealed, Damaged, SegmentStands;
    var n := |logged| - 1;
    var logged', segments' := logged[n := logged[n] + [e]], segments[n := segments[n] + [c.marshal(e)]];
    assert logged'[..n] == logged[..n] && segments'[..n] == segments[..n];
    assert |Flat(logged)| == |Flat(logged[..n])| + |logged[n]|;
    AppendLineStands(c, logged[n], segments[n], hit, |Flat(logged[..n])|, e);
  }

  lemma AppendLineStands(c: LogCodec, es: seq<LogEntry>, lines: seq<Str>, hit: set<nat>, from: nat, e: LogEntry)
    requires SegmentStands(c, es, lines, hit, from) && from + |es| !in hit && Sealed(c, e) == e
    ensures SegmentStands(c, es + [e], lines + [c.marshal(e)], hit, from)
  {
    hide Sealed, Damaged;
    var es', lines' := es + [e], lines + [c.marshal(e)];
    forall j | 0 <= j < |es'| ensures LineStands(c, es'[j], lines'[j], from + j in hit) {
      if j < |es| { assert LineStands(c, es[j], lines[j], from + j in hit); }
    }
  }

  lemma RotateStands(c: LogCodec, logged: seq<seq<LogEntry>>, segments: seq<seq<Str>>, hit: set<nat>)
    requires Stands(c, logged, segments, hit)
    ensures Stands(c, logged + [[]], segments + [[]], hit)
  {
    assert (logged + [[]])[..|logged|] == logged && (segments + [[]])[..|logged|] == segments;
  }

  lemma AppendedLine(c: LogCodec, logged: seq<seq<LogEntry>>, logged': seq<seq<LogEntry>>, e: LogEntry)
    requires logged != [] && AllSealed(c, logged) && Sealed(c, e) == e
    requires logged' == logged[|logged| - 1 := logged[|logged| - 1] + [e]]
    ensures AllSealed(c, logged') && Flat(logged') == Flat(logged) + [e]
  {
    var last := |logged| - 1;
    hide Sealed;
    assert logged'[..last] == logged[..last];
    assert Flat(logged') == Flat(logged[..last]) + (logged[last] + [e]);
    assert SealedAll(c, logged'[last]) == SealedAll(c, logged[last]) + [e];
    assert forall i :: 0 <= i < last ==> logged'[i] == logged[i];
  }

  // ---------- runs of appends, rotations and restarts ----------

  datatype LogState = LogState(logged: seq<seq<LogEntry>>, counter: Uint64)

  datatype LogStep = Append(entry: LogEntry) | Rotate(reopened: bool) | Restart(reopened: bool)

  /** Opening a segment: a new file, or the last one again if its name comes up once more. */
  ghost function Opened(logged: seq<seq<LogEntry>>, reopened: bool): (logged': seq<seq<LogEntry>>) {
    if reopened then logged else logged + [[]]
  }

  ghost function LogNext(c: LogCodec, s: LogState, step: LogStep): (s': LogState)
    requires s.logged != []
    ensures s'.logged != []
  {
    match step
    case Append(entry) =>
      var n: Uint64 := (s.counter + 1) % TWO_64;
      var last := |s.logged| - 1;
      LogState(s.logged[last := s.logged[last] + [Sealed(c, entry.(seqNo := n))]], n)
    case Rotate(reopened) => LogState(Opened(s.logged, reopened), s.counter)
    case Restart(reopened) =>
      LogState(Opened(s.logged, reopened), RecoveredCounter(c, AllLines(c, Opened(s.logged, reopened))))
  }

  ghost function LogRun(c: LogCodec, steps: seq<LogStep>): (s: LogState)
    ensures s.logged != []
  {
    if steps == [] then LogState([[]], 0) else LogNext(c, LogRun(c, steps[..|steps| - 1]), steps[|steps| - 1])
  }

  /** However it is numbered, the entry's line fits the scanner. */
  ghost predicate Short(c: LogCodec, step: LogStep) {
    step.Append? ==> forall n: Uint64 :: |LineOf(c, step.entry.(seqNo := n))| <= MAX_LINE
  }

  /** Every operation in a run, in the order they were appended. */
  ghost function Appended(steps: seq<LogStep>): (es: seq<LogEntry>) {
    if steps == [] then []
    else Appended(steps[..|steps| - 1]) + (if steps[|steps| - 1].Append? then [steps[|steps| - 1].entry] else [])
  }

  /** `log` holds `es`, numbered and sealed. */
  ghost predicate Records(log: seq<LogEntry>, es: seq<LogEntry>) {
    |log| == |es| && forall i :: 0 <= i < |es| ==>
      log[i].(seqNo := 0, checksum := 0) == es[i].(seqNo := 0, checksum := 0)
  }

  lemma RecordsOne(c: LogCodec, log: seq<LogEntry>, es: seq<LogEntry>, e: LogEntry, n: Uint64)
    requires Records(log, es)
    ensures Records(log + [Sealed(c, e.(seqNo := n))], es + [e])
  {
  }

  lemma EmptySegment(c: LogCodec, logged: seq<seq<LogEntry>>)
    ensures Flat(logged + [[]]) == Flat(logged)
    ensures AllSealed(c, logged) ==> AllSealed(c, logged + [[]])
    ensures AllReadable(c, logged) ==> AllReadable(c, logged + [[]])
  {
    assert (logged + [[]])[..|logged|] == logged;
    assert SealedAll(c, []) == [];
  }

  lemma SealTwice(c: LogCodec, e: LogEntry)
    ensures Sealed(c, Sealed(c, e)) == Sealed(c, e) && LineOf(c, Sealed(c, e)) == LineOf(c, e)
    ensures Sealed(c, e).seqNo == e.seqNo
  {
    assert Sealed(c, e).(checksum := 0) == e.(checksum := 0);
  }

  lemma AppendKeepsReadable(c: LogCodec, logged: seq<seq<LogEntry>>, e: LogEntry)
    requires logged != [] && AllReadable(c, logged) && |LineOf(c, e)| <= MAX_LINE
    ensures AllReadable(c, logged[|logged| - 1 := logged[|logged| - 1] + [e]])
  {
    hide LineOf;
    var last := |logged| - 1;
    assert Lines(c, logged[last] + [e]) == Lines(c, logged[last]) + [LineOf(c, e)];
  }

  /** What one step does to the log: only an append changes its entries. */
  lemma StepLogs(c: LogCodec, s: LogState, step: LogStep)
    requires s.logged != [] && AllSealed(c, s.logged)
    ensures var s' := LogNext(c, s, step);
            && AllSealed(c, s'.logged)
            && Flat(s'.logged) == Flat(s.logged) +
                  if step.Append? then [Sealed(c, step.entry.(seqNo := s'.counter))] else []
  {
    var s' := LogNext(c, s, step);
    hide AllSealed, Flat, Sealed, RecoveredCounter, AllLines;
    if step.Append? {
      var plain := step.entry.(seqNo := s'.counter);
      SealTwice(c, plain);
      AppendedLine(c, s.logged, s'.logged, Sealed(c, plain));
    } else {
      EmptySegment(c, s.logged);
    }
  }

  lemma {:induction false} RunRecords(c: LogCodec, steps: seq<LogStep>)
    ensures AllSealed(c, LogRun(c, steps).logged)
    ensures Records(Flat(LogRun(c, steps).logged), Appended(steps))
  {
    if steps == [] {
      EmptySegment(c, []);
      assert [] + [[]] == LogRun(c, steps).logged;
    } else {
      var init, step := steps[..|steps| - 1], steps[|steps| - 1];
      RunRecords(c, init);
      var s := LogRun(c, init);
      hide AllSealed, Flat, LogNext, Sealed, Records;
      StepLogs(c, s, step);
      if step.Append? { RecordsOne(c, Flat(s.logged), Appended(init), step.entry, LogNext(c, s, step).counter); }
    }
  }

  /** In the state after every step the log is numbered 1, 2, 3 and so on up to the counter. */
  ghost predicate Numbered(c: LogCodec, steps: seq<LogStep>) {
    forall n :: 0 <= n <= |steps| ==> CountsAt(c, steps, n)
  }

  ghost predicate CountsAt(c: LogCodec, steps: seq<LogStep>, n: nat)
    requires n <= |steps|
  {
    Counting(Flat(LogRun(c, steps[..n]).logged), LogRun(c, steps[..n]).counter)
  }

  /** If step `i` is a restart, it finds no line too long in the last segment in use. */
  ghost predicate ResumesAt(c: LogCodec, steps: seq<LogStep>, i: nat)
    requires i < |steps|
  {
    steps[i].Restart? ==> Resumes(c, Opened(LogRun(c, steps[..i]).logged, steps[i].reopened))
  }

  ghost predicate Resumes(c: LogCodec, logged: seq<seq<LogEntry>>) {
    Flat(logged) == [] || Readable(Lines(c, logged[LastUsed(logged)]))
  }

  lemma StepCounts(c: LogCodec, s: LogState, step: LogStep)
    requires SoundLog(c) && s.logged != [] && AllSealed(c, s.logged)
    requires Counting(Flat(s.logged), s.counter) && s.counter + 1 < TWO_64
    ensures var s' := LogNext(c, s, step);
            && (Counting(Flat(s'.logged), s'.counter) <==>
                  (step.Restart? ==> Resumes(c, Opened(s.logged, step.reopened))))
            && (Counting(Flat(s'.logged), s'.counter) ==> s'.counter <= s.counter + 1)
  {
    hide SoundLog, AllSealed, Flat, Sealed, RecoveredCounter, Lines, Readable, LastUsed, Counting,
         Stands;
    var s' := LogNext(c, s, step);
    StepLogs(c, s, step);
    match step
    case Append(entry) =>
      var e := Sealed(c, entry.(seqNo := s'.counter));
      SealTwice(c, entry.(seqNo := s'.counter));
      CountingAppend(Flat(s.logged), s.counter, e);
    case Rotate(_) =>
      assert Flat(s'.logged) == Flat(s.logged) + [] == Flat(s.logged);
    case Restart(reopened) =>
      assert Flat(s'.logged) == Flat(s.logged);
      IntactStands(c, s'.logged);
      if Flat(s'.logged) != [] {
        CounterResumesIff(c, s'.logged, AllLines(c, s'.logged), {}, s.counter);
      } else {
        CounterBelow(c, s'.logged, AllLines(c, s'.logged), {});
      }
      CountingIs(Flat(s.logged), s.counter, s'.counter);
  }

  lemma CountingIs(es: seq<LogEntry>, n: Uint64, m: Uint64)
    requires Counting(es, n)
    ensures Counting(es, m) <==> m == n
    ensures es == [] ==> n == 0 && MaxSeq(es) == 0
  {
  }

  /** In a run, sequence numbers are consecutive throughout exactly if no restart finds a line that is
      too long in the last segment in use. */
  lemma {:induction false} NumbersRiseIff(c: LogCodec, steps: seq<LogStep>)
    requires SoundLog(c) && |steps| < TWO_64
    ensures Numbered(c, steps) <==> forall i :: 0 <= i < |steps| ==> ResumesAt(c, steps, i)
    ensures Numbered(c, steps) ==> LogRun(c, steps).counter <= |steps|
  {
    hide SoundLog, Counting, Flat, LogNext, Resumes, AllSealed;
    assert steps[..|steps|] == steps;
    if steps == [] {
      NothingLogged();
    } else {
      var init, step := steps[..|steps| - 1], steps[|steps| - 1];
      NumbersRiseIff(c, init);
      forall n | 0 <= n <= |init| ensures steps[..n] == init[..n] { }
      assert forall n :: 0 <= n <= |init| ==> (CountsAt(c, steps, n) <==> CountsAt(c, init, n));
      assert forall i :: 0 <= i < |init| ==> (ResumesAt(c, steps, i) <==> ResumesAt(c, init, i));
      RunRecords(c, init);
      assert init[..|init|] == init;
      if Numbered(c, init) {
        assert CountsAt(c, init, |init|);
        StepCounts(c, LogRun(c, init), step);
        assert ResumesAt(c, steps, |init|) <==> CountsAt(c, steps, |steps|);
      }
    }
  }

  lemma NothingLogged()
    ensures Flat<LogEntry>([[]]) == [] && Counting(Flat([[]]), 0)
  {
    var none: seq<seq<LogEntry>> := [[]];
    assert none[..0] == [];
  }

  /** Every run of appends, rotations and restarts, whatever the lengths of the lines: the log holds
      every appended operation in order; a recovery replays just the operations that are not lost,
      all of them exactly if no line is too long; numbers are consecutive throughout exactly if each
      restart resumes. */
  lemma LogSurvivesRestarts(c: LogCodec, steps: seq<LogStep>)
    requires SoundLog(c) && |steps| < TWO_64
    ensures var logged := LogRun(c, steps).logged;
            && Records(Flat(logged), Appended(steps))
            && ReplayedAll(c, AllLines(c, logged)) == Survivors(Flat(logged), Lost(AllLines(c, logged)))
            && (ReplayedAll(c, AllLines(c, logged)) == Flat(logged) <==> AllReadable(c, logged))
            && (Numbered(c, steps) <==> forall i :: 0 <= i < |steps| ==> ResumesAt(c, steps, i))
  {
    hide SoundLog, Records, Flat, Numbered, ResumesAt, LogRun, Stands, AllSealed, AllLines, Lost, AllShort;
    var logged := LogRun(c, steps).logged;
    RunRecords(c, steps);
    IntactStands(c, logged);
    RecoveredIsSurvivors(c, logged, AllLines(c, logged), {});
    assert Lost(AllLines(c, logged)) + {} == Lost(AllLines(c, logged));
    ReadableIsShort(c, logged);
    RecoveredIsAllIff(c, logged, AllLines(c, logged), {});
    NumbersRiseIff(c, steps);
  }

  lemma {:induction false} ShortIsReadable(c: LogCodec, steps: seq<LogStep>)
    requires forall i :: 0 <= i < |steps| ==> Short(c, steps[i])
    ensures AllReadable(c, LogRun(c, steps).logged)
  {
    if steps == [] {
      EmptySegment(c, []);
      assert [] + [[]] == LogRun(c, steps).logged;
    } else {
      var init, step := steps[..|steps| - 1], steps[|steps| - 1];
      ShortIsReadable(c, init);
      var s := LogRun(c, init);
      EmptySegment(c, s.logged);
      if step.Append? {
        var n := LogNext(c, s, step).counter;
        assert Short(c, step);
        SealTwice(c, step.entry.(seqNo := n));
        hide LineOf, Sealed, AllReadable, Short;
        AppendKeepsReadable(c, s.logged, Sealed(c, step.entry.(seqNo := n)));
      }
    }
  }

  /** In particular, if every line fits, nothing is lost and each later number exceeds all before it. */
  lemma ShortEntriesSurvive(c: LogCodec, steps: seq<LogStep>)
    requires SoundLog(c) && |steps| < TWO_64 && forall i :: 0 <= i < |steps| ==> Short(c, steps[i])
    ensures var s := LogRun(c, steps);
            && Counting(Flat(s.logged), s.counter)
            && ReplayOnto(map[], ReplayedAll(c, AllLines(c, s.logged))) == Replay(Flat(s.logged))
            && RecoveredCounter(c, AllLines(c, s.logged)) == s.counter
  {
    hide Short, AllReadable, Counting, Flat, AllSealed, LogRun;
    RunRecords(c, steps);
    ShortIsReadable(c, steps);
    NumbersRiseIff(c, steps);
    forall i | 0 <= i < |steps| ensures ResumesAt(c, steps, i) { ShortResumes(c, steps, i); }
    assert CountsAt(c, steps, |steps|);
    assert steps[..|steps|] == steps;
    RecoveryResumes(c, LogRun(c, steps).logged, LogRun(c, steps).counter);
  }

  lemma ShortResumes(c: LogCodec, steps: seq<LogStep>, i: nat)
    requires i < |steps| && forall i :: 0 <= i < |steps| ==> Short(c, steps[i])
    ensures ResumesAt(c, steps, i)
  {
    hide Short, Readable, Lines, LogRun, Flat;
    ShortIsReadable(c, steps[..i]);
    EmptySegment(c, LogRun(c, steps[..i]).logged);
  }

  // ---------- the service ----------

  class CommitLogService {
    const codec: LogCodec
    var segments: seq<seq<Str>>
    var sequenceNumber: Uint64
    ghost var logged: seq<seq<LogEntry>>    // what Append was asked to log, segment by segment
    ghost var hit: set<nat>                 // which of its lines were damaged since

    ghost predicate Valid()
      reads this
    {
      && logged != [] && AllSealed(codec, logged) && Stands(codec, logged, segments, hit)
      && forall i :: i in hit ==> i < |Flat(logged)|
    }

    /** A service over the segments found on disk, some of whose lines may be damaged; its own is a
        new file, unless the last one has the same name and is opened again. */
    constructor (codec: LogCodec, segments: seq<seq<Str>>, reopened: bool, ghost logged: seq<seq<LogEntry>>,
          ghost hit: set<nat>)
      requires AllSealed(codec, logged) && Stands(codec, logged, segments, hit) && (reopened ==> segments != [])
      requires forall i :: i in hit ==> i < |Flat(logged)|
      ensures Valid() && this.codec == codec && this.logged == Opened(logged, reopened) && this.hit == hit
      ensures sequenceNumber == 0
    {
      this.codec, this.segments, this.sequenceNumber := codec, if reopened then segments else segments + [[]], 0;
      this.logged, this.hit := Opened(logged, reopened), hit;
      new;
      RotateStands(codec, logged, segments, hit);
      EmptySegment(codec, logged);
    }

    /** Append: number the entry, seal it, write its line. */
    method Append(entry: LogEntry) returns (e: LogEntry)
      requires Valid()
      modifies this
      ensures Valid() && hit == old(hit) && sequenceNumber == (old(sequenceNumber) + 1) % TWO_64
      ensures e == Sealed(codec, entry.(seqNo := sequenceNumber))
      ensures logged == old(logged)[|old(logged)| - 1 := old(logged)[|old(logged)| - 1] + [e]]
      ensures Flat(logged) == Flat(old(logged)) + [e]
    {
      sequenceNumber := (sequenceNumber + 1) % TWO_64;
      e := entry.(seqNo := sequenceNumber, checksum := 0);
      var data := codec.marshal(e);
      e := e.(checksum := codec.crc(data));
      data := codec.marshal(e);
      var last := |segments| - 1;
      segments := segments[last := segments[last] + [data]];
      ghost var logged' := logged[last := logged[last] + [e]];
      AppendedLine(codec, logged, logged', e);
      AppendStands(codec, logged, old(segments), hit, e);
      assert e == Sealed(codec, entry.(seqNo := sequenceNumber)) && e == Sealed(codec, e);
      logged := logged';
    }

    /** Rotation: a new file, or the last one again if its name has not changed. */
    method OpenNewSegment(reopened: bool)
      requires Valid()
      modifies this
      ensures Valid() && hit == old(hit) && sequenceNumber == old(sequenceNumber)
      ensures logged == Opened(old(logged), reopened) && Flat(logged) == Flat(old(logged))
    {
      if !reopened {
        RotateStands(codec, logged, segments, hit);
        EmptySegment(codec, logged);
        segments := segments + [[]];
        logged := logged + [[]];
        assert logged[..|logged| - 1] == old(logged);
      }
    }

    /** Recover: replay every segment in order and resume the counter. */
    method Recover(mem: MemTableService)
      requires Valid() && mem.Valid() && this !in mem.Repr
      modifies this, mem.Repr
      ensures Valid() && logged == old(logged) && segments == old(segments) && hit == old(hit)
      ensures mem.Valid() && fresh(mem.Repr - old(mem.Repr)) && mem.Imm() == old(mem.Imm())
      ensures mem.Mem() == ReplayOnto(old(mem.Mem()), ReplayedAll(codec, segments))
      ensures sequenceNumber == RecoveredCounter(codec, segments)
    {
      hide SkipList.Valid, MemTable.Valid, Parse, MaxSeq, Replayed, ReplayOnto, AllSealed, Stands, Readable;
      EmptyScan(codec, mem.Mem());
      var maxSeqNum: Uint64 := 0;
      for i := 0 to |segments|
        invariant mem.Valid() && fresh(mem.Repr - old(mem.Repr)) && mem.Imm() == old(mem.Imm())
        invariant this !in mem.Repr && segments == old(segments) && logged == old(logged) && hit == old(hit)
        invariant sequenceNumber == old(sequenceNumber)
        invariant mem.Mem() == ReplayOnto(old(mem.Mem()), ReplayedAll(codec, segments[..i]))
        invariant maxSeqNum == RecoveredCounter(codec, segments[..i])
      {
        var count, skipped, maxSeq, ok := RecoverFromFile(codec, segments[i], mem);
        ReplayOntoConcat(old(mem.Mem()), ReplayedAll(codec, segments[..i]), Replayed(codec, segments[i]));
        assert segments[..i + 1][..i] == segments[..i];
        if ok && maxSeq > maxSeqNum {
          maxSeqNum := maxSeq;
        }
      }
      assert segments[..|segments|] == segments;
      sequenceNumber := maxSeqNum;
    }
  }

  /** Unmarshal a line and validate its checksum, if it has one. */
  method ParseLine(c: LogCodec, line: Str) returns (r: Option<LogEntry>)
    requires line != []
    ensures r == Parse(c, line)
    ensures if r.None? then Damaged(c, line) else Genuine(c, line, r.value)
  {
    r := c.unmarshal(line);
    if r.None? {
      return;
    }
    var entry := r.value;
    if entry.checksum != 0 {
      var originalChecksum := entry.checksum;
      entry := entry.(checksum := 0);
      var data := c.marshal(entry);
      if c.crc(data) != originalChecksum {
        return None;
      }
      entry := entry.(checksum := originalChecksum);
    }
    r := Some(entry);
  }

  /** One more line of the scan. */
  lemma ReplayedNext(c: LogCodec, lines: seq<Str>, i: nat)
    requires i < |lines| && Readable(lines[..i])
    ensures |lines[i]| > MAX_LINE ==> Replayed(c, lines) == Replayed(c, lines[..i]) && !Readable(lines)
    ensures |lines[i]| <= MAX_LINE ==> Readable(lines[..i + 1])
    ensures |lines[i]| <= MAX_LINE && Parse(c, lines[i]).None? ==>
        Replayed(c, lines[..i + 1]) == Replayed(c, lines[..i])
    ensures |lines[i]| <= MAX_LINE && Parse(c, lines[i]).Some? ==>
        Replayed(c, lines[..i + 1]) == Replayed(c, lines[..i]) + [Parse(c, lines[i]).value]
  {
    assert lines == lines[..i] + lines[i..];
    ReplayedConcat(c, lines[..i], lines[i..]);
    var one: seq<Str> := [lines[i]];
    assert lines[..i + 1] == lines[..i] + one;
    ReplayedConcat(c, lines[..i], one);
    assert one[1..] == [];
  }

  lemma ReplayOntoOne(m: Table, es: seq<LogEntry>, e: LogEntry)
    ensures ReplayOnto(m, es + [e]) == ReplayOnto(m, es)[CompositeKey(e) := EntryOf(e)]
    ensures MaxSeq(es + [e]) == Max(MaxSeq(es), e.seqNo)
  {
    assert (es + [e])[..|es|] == es;
  }

  /** The lines among the first `n` that are not empty and yet refused. */
  ghost function Refused(c: LogCodec, lines: seq<Str>, n: nat): (s: set<int>)
    requires n <= |lines|
  {
    set i | 0 <= i < n && lines[i] != [] && Damaged(c, lines[i])
  }

  lemma RefusedNext(c: LogCodec, lines: seq<Str>, i: nat)
    requires i < |lines| && Readable(lines[..i])
    ensures |lines[i]| > MAX_LINE ==> FirstLong(lines) == i
    ensures |Refused(c, lines, i + 1)| ==
        |Refused(c, lines, i)| + if lines[i] != [] && Damaged(c, lines[i]) then 1 else 0
    ensures Refused(c, lines, 0) == {}
  {
    hide Damaged;
    assert forall j :: 0 <= j < i ==> lines[..i][j] == lines[j];
    var was := Refused(c, lines, i);
    assert Refused(c, lines, i + 1) == if lines[i] != [] && Damaged(c, lines[i]) then was + {i} else was;
  }

  lemma RefusedAll(c: LogCodec, lines: seq<Str>)
    requires Readable(lines)
    ensures FirstLong(lines) == |lines|
  {
  }

  /** recoverFromFile: the scan of one segment. */
  method RecoverFromFile(c: LogCodec, lines: seq<Str>, mem: MemTableService)
    returns (count: nat, skipped: nat, maxSeqNum: Uint64, ok: bool)
    requires mem.Valid()
    modifies mem.Repr
    ensures mem.Valid() && fresh(mem.Repr - old(mem.Repr)) && mem.Imm() == old(mem.Imm())
    ensures mem.Mem() == ReplayOnto(old(mem.Mem()), Replayed(c, lines))
    ensures count == |Replayed(c, lines)| && maxSeqNum == MaxSeq(Replayed(c, lines)) && ok == Readable(lines)
    ensures skipped == |Refused(c, lines, FirstLong(lines))|
  {
    hide SkipList.Valid, MemTable.Valid, Parse, EntryOf, CompositeKey, Replayed, ReplayOnto, MaxSeq, Readable;
    count, skipped, maxSeqNum := 0, 0, 0;
    EmptyScan(c, mem.Mem());
    assert lines[..0] == [];
    for i := 0 to |lines|
      invariant mem.Valid() && fresh(mem.Repr - old(mem.Repr)) && mem.Imm() == old(mem.Imm())
      invariant mem.Mem() == ReplayOnto(old(mem.Mem()), Replayed(c, lines[..i]))
      invariant count == |Replayed(c, lines[..i])| && maxSeqNum == MaxSeq(Replayed(c, lines[..i]))
      invariant Readable(lines[..i]) && skipped == |Refused(c, lines, i)|
    {
      var line := lines[i];
      ReplayedNext(c, lines, i);
      RefusedNext(c, lines, i);
      if |line| > MAX_LINE {
        return count, skipped, maxSeqNum, false;
      }
      if line == [] {
        continue;
      }
      var parsed := ParseLine(c, line);
      if parsed.None? {
        skipped := skipped + 1;
        continue;
      }
      var entry := parsed.value;
      ReplayOntoOne(old(mem.Mem()), Replayed(c, lines[..i]), entry);
      if entry.seqNo > maxSeqNum {
        maxSeqNum := entry.seqNo;
      }
      mem.Put(EntryOf(entry));
      count := count + 1;
    }
    assert lines[..|lines|] == lines;
    RefusedAll(c, lines);
    ok := true;
  }

  lemma EmptyScan(c: LogCodec, m: Table)
    ensures Replayed(c, []) == [] && ReplayOnto(m, []) == m && MaxSeq([]) == 0 && Readable([])
    ensures Parse(c, []) == None
  {
  }
}
