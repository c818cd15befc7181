/**
 Watching a growing trace file for the deletion of an object, chunk by chunk,
 and waiting until every witness has seen it two frames ago.
 */
module DeletionScan {
  import opened Common

  const CHUNK: nat := 512 * 1024
  const NEWLINE := '\n'

  const FRAMES: nat := 0x1_0000_0000

  type Text = string

  /** Frame numbers are 32-bit and wrap around. */
  type Frame = n: nat | n < FRAMES

  /** What one trace line says; `Deletes` lists the objects of a well-shaped deletion packet. */
  datatype Reading = Irrelevant | Deletes(objects: set<nat>, frame: Frame) | Malformed

  datatype Witness = Witness(offset: nat, isDeleted: bool, deletedFrame: Frame, isSettled: bool)

  // ------------------------------------------------------------------ lines

  /** The position of the first newline at or after `from`, or the length when there is none. */
  function FindNewline(text: Text, from: nat): (k: nat)
    requires from <= |text|
    ensures from <= k <= |text| && IsFirstNewline(text, from, k)
    decreases |text| - from
  {
    if from == |text| || text[from] == NEWLINE then from else FindNewline(text, from + 1)
  }

  predicate IsFirstNewline(text: Text, from: nat, k: nat)
    requires from <= k <= |text|
  {
    (forall i :: from <= i < k ==> text[i] != NEWLINE) && (k < |text| ==> text[k] == NEWLINE)
  }

  /** The complete lines of a text, without their newlines. */
  function Lines(text: Text): seq<Text>
    decreases |text|
  {
    var k := FindNewline(text, 0);
    if k == |text| then [] else [text[..k]] + Lines(text[k + 1..])
  }

  predicate IsWhole(text: Text) {
    text == [] || text[|text| - 1] == NEWLINE
  }

  lemma NoLines(text: Text)
    requires NEWLINE !in text
    ensures Lines(text) == []
  {
    assert forall i :: 0 <= i < |text| ==> text[i] in text;
  }

  lemma LinesCut(text: Text, head: Text, rest: Text)
    requires NEWLINE !in head && text == head + [NEWLINE] + rest
    ensures Lines(text) == [head] + Lines(rest)
  {
    var k := FindNewline(text, 0);
    forall i | 0 <= i < |head|
      ensures text[i] != NEWLINE
    {
      assert text[i] == head[i] && head[i] in head;
    }
    assert text[|head|] == NEWLINE && k == |head|;
    assert text[..k] == head && text[k + 1..] == rest;
  }

  lemma FirstLine(a: Text) returns (head: Text, rest: Text)
    requires a != [] && IsWhole(a)
    ensures NEWLINE !in head && a == head + [NEWLINE] + rest && IsWhole(rest)
  {
    var k := FindNewline(a, 0);
    head, rest := a[..k], a[k + 1..];
  }

  lemma CutBoth(a: Text, b: Text) returns (head: Text, rest: Text)
    requires a != [] && IsWhole(a)
    ensures |rest| < |a| && IsWhole(rest)
    ensures Lines(a) == [head] + Lines(rest) && Lines(a + b) == [head] + Lines(rest + b)
  {
    head, rest := FirstLine(a);
    LinesCut(a, head, rest);
    assert a + b == head + [NEWLINE] + (rest + b);
    LinesCut(a + b, head, rest + b);
  }

  lemma Associative<T>(a: seq<T>, b: seq<T>, c: seq<T>)
    ensures a + (b + c) == (a + b) + c
  {
  }

  /** Whole lines can be split off a text without changing what its lines are. */
  lemma {:induction false} LinesJoin(a: Text, b: Text)
    requires IsWhole(a)
    ensures Lines(a + b) == Lines(a) + Lines(b)
    decreases |a|
  {
    if a == [] {
      assert a + b == b;
    } else {
      var head, rest := CutBoth(a, b);
      LinesJoin(rest, b);
      Associative([head], Lines(rest), Lines(b));
    }
  }

  // ---------------------------------------------------------------- one call

  function Note(w: Witness, reading: Reading, id: nat): Witness {
    if reading.Deletes? && id in reading.objects then w.(isDeleted := true, deletedFrame := reading.frame) else w
  }

  /** Reads lines in order; a malformed one ends the call. */
  function Examine(decode: Text -> Reading, w: Witness, lines: seq<Text>, id: nat): Option<Witness>
    decreases |lines|
  {
    if lines == [] then Some(w)
    else if lines[0] == [] then Examine(decode, w, lines[1..], id)
    else if decode(lines[0]).Malformed? then None
    else Examine(decode, Note(w, decode(lines[0]), id), lines[1..], id)
  }

  lemma {:induction false} ExamineJoin(decode: Text -> Reading, w: Witness, a: seq<Text>, b: seq<Text>, id: nat)
    ensures Examine(decode, w, a + b, id)
         == match Examine(decode, w, a, id)
            case None => None
            case Some(v) => Examine(decode, v, b, id)
    decreases |a|
  {
    if a == [] {
      assert a + b == b;
    } else {
      assert (a + b)[1..] == a[1..] + b;
      if a[0] == [] {
        ExamineJoin(decode, w, a[1..], b, id);
      } else {
        ExamineJoin(decode, Note(w, decode(a[0]), id), a[1..], b, id);
      }
    }
  }

  /** One past the last newline, or zero. */
  function WholePart(text: Text): (n: nat)
    ensures n <= |text| && IsWhole(text[..n]) && NEWLINE !in text[n..]
  {
    if text == [] then 0
    else if text[|text| - 1] == NEWLINE then |text|
    else
      var n := WholePart(text[..|text| - 1]);
      assert text[..|text| - 1][..n] == text[..n];
      assert text[n..] == text[..|text| - 1][n..] + [text[|text| - 1]];
      n
  }

  function Chunk(file: Text, offset: nat): Text {
    if offset >= |file| then []
    else if offset + CHUNK <= |file| then file[offset..offset + CHUNK]
    else file[offset..]
  }

  function Observe(decode: Text -> Reading, file: Text, w: Witness, id: nat): Option<Witness> {
    var chunk := Chunk(file, w.offset);
    var n := WholePart(chunk);
    if n == 0 then (if |chunk| == CHUNK then None else Some(w))
    else match Examine(decode, w, Lines(chunk[..n]), id)
      case None => None
      case Some(v) => Some(v.(offset := w.offset + n))
  }

  /** A scan looks at nothing but the lines: neither the offset nor the settled flag matters to it. */
  lemma {:induction false} ExamineKeeps(decode: Text -> Reading, w: Witness, lines: seq<Text>, id: nat, n: nat)
    requires Examine(decode, w, lines, id).Some?
    ensures Examine(decode, w, lines, id).value.offset == w.offset
    ensures Examine(decode, w, lines, id).value.isSettled == w.isSettled
    ensures Examine(decode, w.(offset := n), lines, id) == Some(Examine(decode, w, lines, id).value.(offset := n))
    decreases |lines|
  {
    if lines != [] {
      ExamineKeeps(decode, if lines[0] == [] then w else Note(w, decode(lines[0]), id), lines[1..], id, n);
    }
  }

  /** From `w` to `v` exactly the complete lines of `file` between their offsets have been read. */
  ghost predicate HasRead(decode: Text -> Reading, file: Text, w: Witness, v: Witness, id: nat) {
    && w.offset <= v.offset <= |file| && IsWhole(file[w.offset..v.offset])
    && Examine(decode, w.(offset := v.offset), Lines(file[w.offset..v.offset]), id) == Some(v)
  }

  lemma ReadsOnly(decode: Text -> Reading, file: Text, w: Witness, id: nat, part: Text)
    requires w.offset + |part| <= |file| && file[w.offset..w.offset + |part|] == part && IsWhole(part)
    requires Examine(decode, w, Lines(part), id).Some?
    ensures HasRead(decode, file, w, Examine(decode, w, Lines(part), id).value.(offset := w.offset + |part|), id)
  {
    ExamineKeeps(decode, w, Lines(part), id, w.offset + |part|);
  }

  /** A call that succeeds has read exactly the complete lines it moved past. */
  lemma ObserveReadsWhatItPasses(decode: Text -> Reading, file: Text, w: Witness, id: nat)
    requires w.offset <= |file| && Observe(decode, file, w, id).Some?
    ensures HasRead(decode, file, w, Observe(decode, file, w, id).value, id)
    ensures Observe(decode, file, w, id).value.isSettled == w.isSettled
  {
    var chunk := Chunk(file, w.offset);
    var n := WholePart(chunk);
    var part := chunk[..n];
    assert file[w.offset..w.offset + n] == part;
    if n == 0 {
      assert part == [] && Lines(part) == [] && w.(offset := w.offset) == w;
    } else {
      ReadsOnly(decode, file, w, id, part);
      ExamineKeeps(decode, w, Lines(part), id, w.offset);
    }
  }

  /** A call that succeeds without moving has caught up: no complete line is left. */
  lemma StillMeansCaughtUp(decode: Text -> Reading, file: Text, w: Witness, id: nat)
    requires w.offset <= |file| && Observe(decode, file, w, id).Some?
    requires Observe(decode, file, w, id).value.offset == w.offset
    ensures NEWLINE !in file[w.offset..]
  {
    var chunk := Chunk(file, w.offset);
    var n := WholePart(chunk);
    assert n == 0;
    assert chunk[0..] == chunk;
  }

  /** A newline comes within the first 512 KiB from `offset`. */
  predicate HasLineNear(file: Text, offset: nat) {
    exists i :: offset <= i < |file| && i < offset + 524288 && file[i] == '\n'
  }

  lemma NoNewlineAfter(text: Text)
    ensures forall i :: WholePart(text) <= i < |text| ==> text[i] != NEWLINE
  {
    var n := WholePart(text);
    forall i | n <= i < |text|
      ensures text[i] != NEWLINE
    {
      assert text[n..][i - n] == text[i];
    }
  }

  lemma LineNear(file: Text, offset: nat)
    requires offset <= |file|
    ensures HasLineNear(file, offset) <==> WholePart(Chunk(file, offset)) > 0
    ensures |Chunk(file, offset)| == CHUNK <==> offset + 524288 <= |file|
  {
    var chunk := Chunk(file, offset);
    var n := WholePart(chunk);
    assert forall i :: 0 <= i < |chunk| ==> chunk[i] == file[offset + i];
    if n > 0 {
      assert chunk[..n][n - 1] == chunk[n - 1] == file[offset + n - 1];
    }
    NoNewlineAfter(chunk);
    if HasLineNear(file, offset) {
      var i :| offset <= i < |file| && i < offset + 524288 && file[i] == '\n';
      assert chunk[i - offset] == NEWLINE;
    }
  }

  /**
   One call: without a newline near by it waits, unless 512 KiB have come without one;
   otherwise it moves to just after the last newline near by, unless a line on the
   way is malformed.
   */
  lemma ObserveMeaning(decode: Text -> Reading, file: Text, w: Witness, id: nat)
    requires w.offset <= |file|
    ensures !HasLineNear(file, w.offset) ==>
              Observe(decode, file, w, id) == if w.offset + 524288 <= |file| then None else Some(w)
    ensures HasLineNear(file, w.offset) ==>
              exists end: nat ::
                && w.offset < end <= |file| && end <= w.offset + 524288 && file[end - 1] == '\n'
                && !HasNewline(file, end, w.offset + 524288)
                && (Observe(decode, file, w, id).None? <==> HasMalformed(decode, Lines(file[w.offset..end])))
                && (Observe(decode, file, w, id).Some? ==> Observe(decode, file, w, id).value.offset == end)
  {
    LineNear(file, w.offset);
    if HasLineNear(file, w.offset) {
      var chunk := Chunk(file, w.offset);
      var n := WholePart(chunk);
      var end := w.offset + n;
      assert chunk[..n] == file[w.offset..end] && chunk[..n][n - 1] == file[end - 1];
      forall i | end <= i < |file| && i < w.offset + 524288
        ensures file[i] != '\n'
      {
        assert file[i] == chunk[n..][i - end] && chunk[n..][i - end] in chunk[n..];
      }
      ExamineFails(decode, w, Lines(chunk[..n]), id);
    }
  }

  predicate HasNewline(file: Text, from: nat, to: nat) {
    exists i :: from <= i < to && i < |file| && file[i] == '\n'
  }

  // ------------------------------------------------------------- many calls

  /** Successive calls, each on the file as it has grown by then. */
  function ObserveAll(decode: Text -> Reading, files: seq<Text>, w: Witness, id: nat): Option<Witness>
    decreases |files|
  {
    if files == [] then Some(w)
    else match Observe(decode, files[0], w, id)
      case None => None
      case Some(v) => ObserveAll(decode, files[1..], v, id)
  }

  predicate IsGrowing(files: seq<Text>) {
    forall i, j :: 0 <= i < j < |files| ==> files[i] <= files[j]
  }

  /** Two stretches read one after the other are one stretch read at once, also when the file grew meanwhile. */
  lemma JoinReads(decode: Text -> Reading, file: Text, grown: Text, w: Witness, v: Witness, z: Witness, id: nat)
    requires file <= grown && HasRead(decode, file, w, v, id) && HasRead(decode, grown, v, z, id)
    ensures HasRead(decode, grown, w, z, id)
  {
    var a, b := file[w.offset..v.offset], grown[v.offset..z.offset];
    assert grown[w.offset..z.offset] == a + b;
    LinesJoin(a, b);
    JoinCalls(decode, w, v, z, Lines(a), Lines(b), id);
  }

  lemma JoinCalls(decode: Text -> Reading, w: Witness, v: Witness, z: Witness, a: seq<Text>, b: seq<Text>, id: nat)
    requires Examine(decode, w.(offset := v.offset), a, id) == Some(v)
    requires Examine(decode, v.(offset := z.offset), b, id) == Some(z)
    ensures Examine(decode, w.(offset := z.offset), a + b, id) == Some(z)
  {
    ExamineKeeps(decode, w.(offset := v.offset), a, id, z.offset);
    assert w.(offset := v.offset).(offset := z.offset) == w.(offset := z.offset);
    ExamineJoin(decode, w.(offset := z.offset), a, b, id);
  }

  /**
   However the file grew between calls, the witness ends as if the complete
   lines it has passed had been read once, in order, in one go.
   */
  lemma {:induction false} ScanIgnoresGrowth(decode: Text -> Reading, files: seq<Text>, w: Witness, id: nat)
    requires files != [] && IsGrowing(files) && w.offset <= |files[0]| && ObserveAll(decode, files, w, id).Some?
    ensures HasRead(decode, files[|files| - 1], w, ObserveAll(decode, files, w, id).value, id)
    decreases |files|
  {
    var v := Observe(decode, files[0], w, id).value;
    ObserveReadsWhatItPasses(decode, files[0], w, id);
    if |files| == 1 {
      assert ObserveAll(decode, files[1..], v, id) == Some(v);
    } else {
      assert files[0] <= files[1] && files[0] <= files[|files| - 1];
      ScanIgnoresGrowth(decode, files[1..], v, id);
      JoinReads(decode, files[0], files[|files| - 1], w, v, ObserveAll(decode, files, w, id).value, id);
    }
  }

  // ----------------------------------------------------------- what it means

  /** Line `k` deletes the object and no later line does. */
  predicate IsLastDeletion(decode: Text -> Reading, lines: seq<Text>, id: nat, k: nat) {
    && k < |lines| && Deleting(decode, lines[k], id)
    && forall j :: k < j < |lines| ==> !Deleting(decode, lines[j], id)
  }

  predicate Deleting(decode: Text -> Reading, line: Text, id: nat) {
    line != [] && decode(line).Deletes? && id in decode(line).objects
  }

  predicate HasMalformed(decode: Text -> Reading, lines: seq<Text>) {
    exists k :: 0 <= k < |lines| && lines[k] != [] && decode(lines[k]).Malformed?
  }

  predicate DeletesNothing(decode: Text -> Reading, lines: seq<Text>, id: nat) {
    forall k :: 0 <= k < |lines| ==> !Deleting(decode, lines[k], id)
  }

  function ExamineLine(decode: Text -> Reading, w: Witness, line: Text, id: nat): Witness {
    if line == [] then w else Note(w, decode(line), id)
  }

  lemma {:induction false} ExamineFails(decode: Text -> Reading, w: Witness, lines: seq<Text>, id: nat)
    ensures Examine(decode, w, lines, id).None? <==> HasMalformed(decode, lines)
    decreases |lines|
  {
    if lines != [] {
      var rest := lines[1..];
      ExamineFails(decode, ExamineLine(decode, w, lines[0], id), rest, id);
      assert forall k :: 0 <= k < |rest| ==> rest[k] == lines[k + 1];
      assert forall k :: 0 < k < |lines| ==> lines[k] == rest[k - 1];
    }
  }

  lemma {:induction false} ExamineFindsNone(decode: Text -> Reading, w: Witness, lines: seq<Text>, id: nat)
    requires Examine(decode, w, lines, id).Some? && DeletesNothing(decode, lines, id)
    ensures Examine(decode, w, lines, id) == Some(w)
    decreases |lines|
  {
    if lines != [] {
      assert forall k :: 0 <= k < |lines| - 1 ==> lines[1..][k] == lines[k + 1];
      ExamineFindsNone(decode, ExamineLine(decode, w, lines[0], id), lines[1..], id);
    }
  }

  lemma {:induction false} ExamineFindsLast(decode: Text -> Reading, w: Witness, lines: seq<Text>, id: nat, k: nat)
    requires Examine(decode, w, lines, id).Some? && IsLastDeletion(decode, lines, id, k)
    ensures Examine(decode, w, lines, id) == Some(w.(isDeleted := true, deletedFrame := decode(lines[k]).frame))
    decreases |lines|
  {
    var next, rest := ExamineLine(decode, w, lines[0], id), lines[1..];
    assert forall j :: 0 <= j < |rest| ==> rest[j] == lines[j + 1];
    if k > 0 {
      ExamineFindsLast(decode, next, rest, id, k - 1);
    } else {
      ExamineFindsNone(decode, next, rest, id);
    }
  }

  /** A scan records the frame of the last deletion among its lines, and fails exactly on a malformed line. */
  lemma ExamineMeaning(decode: Text -> Reading, w: Witness, lines: seq<Text>, id: nat)
    ensures Examine(decode, w, lines, id).None? <==> HasMalformed(decode, lines)
    ensures match Examine(decode, w, lines, id)
            case None => true
            case Some(v) =>
              && (v == w <== DeletesNothing(decode, lines, id))
              && forall k: nat :: IsLastDeletion(decode, lines, id, k) ==>
                   v == w.(isDeleted := true, deletedFrame := decode(lines[k]).frame)
  {
    ExamineFails(decode, w, lines, id);
    if Examine(decode, w, lines, id).Some? {
      if DeletesNothing(decode, lines, id) {
        ExamineFindsNone(decode, w, lines, id);
      }
      forall k: nat | IsLastDeletion(decode, lines, id, k)
        ensures Examine(decode, w, lines, id) == Some(w.(isDeleted := true, deletedFrame := decode(lines[k]).frame))
      {
        ExamineFindsLast(decode, w, lines, id, k);
      }
    }
  }

  // ------------------------------------------------------------- the waiting

  /** `now` is at least two frames past `seen`, and less than half the circle. */
  predicate IsTwoFramesLater(now: Frame, seen: Frame) {
    2 <= (now - seen) % FRAMES < FRAMES / 2
  }

  /** In steps of the 32-bit counter: two or more since then, and fewer than half of all it can count. */
  lemma FramesMeaning(seen: Frame, steps: nat)
    ensures IsTwoFramesLater((seen + steps) % 0x1_0000_0000, seen) <==> 2 <= steps % 0x1_0000_0000 < 0x8000_0000
  {
    var now := (seen + steps) % 0x1_0000_0000;
    assert now == seen + steps - (seen + steps) / 0x1_0000_0000 * 0x1_0000_0000;
    assert (now - seen) % 0x1_0000_0000 == steps % 0x1_0000_0000;
  }

  /** What one witness meets in one round; `frame` is the native frame, if the inspection gives one. */
  datatype Sight = Sight(isOwned: bool, file: Text, frame: Option<Frame>)

  function Visit(decode: Text -> Reading, w: Witness, sight: Sight, id: nat): Option<Witness> {
    if !sight.isOwned then None
    else if w.isSettled then Some(w)
    else match Observe(decode, sight.file, w, id)
      case None => None
      case Some(v) =>
        if !v.isDeleted then Some(v)
        else match sight.frame
          case None => None
          case Some(now) => Some(v.(isSettled := v.isSettled || IsTwoFramesLater(now, v.deletedFrame)))
  }

  /**
   One visit: it fails when the owner has changed, the trace cannot be read on, or a
   deletion is known but no native frame is; otherwise the witness reads on, and
   settles exactly when the frame is two or more past the deletion it then holds.
   */
  lemma VisitMeaning(decode: Text -> Reading, w: Witness, sight: Sight, id: nat)
    requires !w.isSettled
    ensures var read := Observe(decode, sight.file, w, id);
            && (Visit(decode, w, sight, id).Some? <==>
                  sight.isOwned && read.Some? && (read.value.isDeleted ==> sight.frame.Some?))
            && (Visit(decode, w, sight, id).Some? ==>
                  var v := Visit(decode, w, sight, id).value;
                  && v.(isSettled := read.value.isSettled) == read.value
                  && (read.value.isSettled == false ==>
                        (v.isSettled <==> v.isDeleted && 2 <= (sight.frame.value - v.deletedFrame) % 0x1_0000_0000 < 0x8000_0000)))
  {
  }

  /** One witness over successive rounds. */
  function VisitAll(decode: Text -> Reading, w: Witness, sights: seq<Sight>, id: nat): Option<Witness>
    decreases |sights|
  {
    if sights == [] then Some(w)
    else match Visit(decode, w, sights[0], id)
      case None => None
      case Some(v) => VisitAll(decode, v, sights[1..], id)
  }

  function Files(sights: seq<Sight>): (files: seq<Text>)
    ensures |files| == |sights| && forall k :: 0 <= k < |sights| ==> files[k] == sights[k].file
  {
    if sights == [] then [] else [sights[0].file] + Files(sights[1..])
  }

  /**
   How a witness has settled: at some round it had read exactly the lines passed
   since it was created, and the deletion it holds was at least two frames before
   the native frame of that round.
   */
  ghost predicate HasSettled(decode: Text -> Reading, w: Witness, sights: seq<Sight>, id: nat, k: nat, v: Witness) {
    && k < |sights| && sights[k].frame.Some? && IsTwoFramesLater(sights[k].frame.value, v.deletedFrame)
    && v.isDeleted && HasRead(decode, sights[k].file, w, v.(isSettled := false), id)
  }

  /** Among the lines from `w` to `v` the last deletion of the object carries the frame that `v` holds. */
  ghost predicate SawDeletion(decode: Text -> Reading, file: Text, w: Witness, v: Witness, id: nat) {
    && w.offset <= v.offset <= |file|
    && exists j: nat :: IsLastDeletion(decode, Lines(file[w.offset..v.offset]), id, j)
                        && decode(Lines(file[w.offset..v.offset])[j]).frame == v.deletedFrame
  }

  lemma {:induction false} LastDeletionExists(decode: Text -> Reading, lines: seq<Text>, id: nat, k: nat) returns (j: nat)
    requires k < |lines| && Deleting(decode, lines[k], id)
    ensures IsLastDeletion(decode, lines, id, j)
    decreases |lines| - k
  {
    if l :| k < l < |lines| && Deleting(decode, lines[l], id) {
      j := LastDeletionExists(decode, lines, id, l);
    } else {
      j := k;
    }
  }

  /** A witness that had seen no deletion before holds the frame of the last one it has read. */
  lemma SettledByDeletion(decode: Text -> Reading, w: Witness, sights: seq<Sight>, id: nat, k: nat, v: Witness)
    requires HasSettled(decode, w, sights, id, k, v) && !w.isDeleted
    ensures SawDeletion(decode, sights[k].file, w, v, id)
  {
    var lines := Lines(sights[k].file[w.offset..v.offset]);
    ExamineMeaning(decode, w.(offset := v.offset), lines, id);
    var l: nat :| l < |lines| && Deleting(decode, lines[l], id);
    var j := LastDeletionExists(decode, lines, id, l);
  }

  lemma {:induction false} SettledStays(decode: Text -> Reading, w: Witness, sights: seq<Sight>, id: nat)
    requires w.isSettled && VisitAll(decode, w, sights, id).Some?
    ensures VisitAll(decode, w, sights, id) == Some(w)
    decreases |sights|
  {
    if sights != [] {
      SettledStays(decode, w, sights[1..], id);
    }
  }

  lemma {:induction false} SettledSomewhere(decode: Text -> Reading, w: Witness, sights: seq<Sight>, id: nat)
    requires !w.isSettled && IsGrowing(Files(sights)) && (sights != [] ==> w.offset <= |sights[0].file|)
    ensures match VisitAll(decode, w, sights, id)
            case None => true
            case Some(v) => v.isSettled ==> exists k: nat :: HasSettled(decode, w, sights, id, k, v)
    decreases |sights|
  {
    if sights != [] && VisitAll(decode, w, sights, id).Some? && VisitAll(decode, w, sights, id).value.isSettled {
      ObserveReadsWhatItPasses(decode, sights[0].file, w, id);
      var v := Visit(decode, w, sights[0], id).value;
      if v.isSettled {
        SettledStays(decode, v, sights[1..], id);
        assert v.(isSettled := false) == Observe(decode, sights[0].file, w, id).value;
        assert HasSettled(decode, w, sights, id, 0, v);
      } else {
        LaterSights(sights, v.offset);
        SettledSomewhere(decode, v, sights[1..], id);
        var z := VisitAll(decode, v, sights[1..], id).value;
        var k: nat :| HasSettled(decode, v, sights[1..], id, k, z);
        assert Files(sights)[0] <= Files(sights)[k + 1];
        JoinReads(decode, sights[0].file, sights[k + 1].file, w, v, z.(isSettled := false), id);
        assert HasSettled(decode, w, sights, id, k + 1, z);
      }
    }
  }

  /**
   A witness settles only at a round that shows a frame at least two past the
   deletion it holds; one created without a deletion holds the last one among the
   lines it has passed.
   */
  lemma SettledMeansSeen(decode: Text -> Reading, w: Witness, sights: seq<Sight>, id: nat)
    requires !w.isSettled && IsGrowing(Files(sights)) && (sights != [] ==> w.offset <= |sights[0].file|)
    ensures match VisitAll(decode, w, sights, id)
            case None => true
            case Some(v) =>
              v.isSettled ==> exists k: nat :: HasSettled(decode, w, sights, id, k, v)
                                               && (w.isDeleted || SawDeletion(decode, sights[k].file, w, v, id))
  {
    SettledSomewhere(decode, w, sights, id);
    if VisitAll(decode, w, sights, id).Some? && VisitAll(decode, w, sights, id).value.isSettled {
      var v := VisitAll(decode, w, sights, id).value;
      var k: nat :| HasSettled(decode, w, sights, id, k, v);
      if !w.isDeleted {
        SettledByDeletion(decode, w, sights, id, k, v);
      }
    }
  }

  lemma LaterSights(sights: seq<Sight>, offset: nat)
    requires sights != [] && IsGrowing(Files(sights)) && offset <= |sights[0].file|
    ensures IsGrowing(Files(sights[1..])) && (sights[1..] != [] ==> offset <= |sights[1..][0].file|)
  {
    assert Files(sights)[1..] == Files(sights[1..]);
    if |sights| > 1 {
      assert Files(sights)[0] <= Files(sights)[1];
    }
  }

  // ----------------------------------------------------------------- methods

  /** Updates `witnesses[at]` in place; a failing call leaves its offset alone. */
  method ObserveDelete(decode: Text -> Reading, file: Text, witnesses: array<Witness>, at: nat, id: nat) returns (ok: bool)
    requires at < witnesses.Length
    modifies witnesses
    ensures ok == Observe(decode, file, old(witnesses[at]), id).Some?
    ensures ok ==> witnesses[at] == Observe(decode, file, old(witnesses[at]), id).value
    ensures witnesses[at].isSettled == old(witnesses[at].isSettled)
    ensures !ok ==> witnesses[at].offset == old(witnesses[at].offset)
    ensures forall i :: 0 <= i < witnesses.Length && i != at ==> witnesses[i] == old(witnesses[i])
  {
    var w := witnesses[at];
    var chunk := Chunk(file, w.offset);
    var n := WholePart(chunk);
    if n == 0 { return |chunk| != CHUNK; }
    var lines := Lines(chunk[..n]);
    var index := 0;
    while index < |lines|
      invariant 0 <= index <= |lines|
      invariant Examine(decode, witnesses[at], lines[index..], id) == Examine(decode, w, lines, id)
      invariant witnesses[at].offset == w.offset && witnesses[at].isSettled == w.isSettled
      invariant forall i :: 0 <= i < witnesses.Length && i != at ==> witnesses[i] == old(witnesses[i])
    {
      assert lines[index..][0] == lines[index] && lines[index..][1..] == lines[index + 1..];
      if lines[index] != [] {
        var reading := decode(lines[index]);
        if reading.Malformed? { return false; }
        if reading.Deletes? && id in reading.objects {
          witnesses[at] := witnesses[at].(isDeleted := true, deletedFrame := reading.frame);
        }
      }
      index := index + 1;
    }
    assert lines[|lines|..] == [];
    witnesses[at] := witnesses[at].(offset := w.offset + n);
    ok := true;
  }

  /** One witness in one round. */
  method VisitOne(decode: Text -> Reading, witnesses: array<Witness>, at: nat, sight: Sight, id: nat) returns (ok: bool)
    requires at < witnesses.Length
    modifies witnesses
    ensures ok == Visit(decode, old(witnesses[at]), sight, id).Some?
    ensures ok ==> witnesses[at] == Visit(decode, old(witnesses[at]), sight, id).value
    ensures forall i :: 0 <= i < witnesses.Length && i != at ==> witnesses[i] == old(witnesses[i])
  {
    if !sight.isOwned { return false; }
    if witnesses[at].isSettled { return true; }
    ok := ObserveDelete(decode, sight.file, witnesses, at, id);
    if !ok || !witnesses[at].isDeleted { return; }
    if sight.frame.None? { return false; }
    if IsTwoFramesLater(sight.frame.value, witnesses[at].deletedFrame) {
      witnesses[at] := witnesses[at].(isSettled := true);
    }
  }

  /** One round over all witnesses; `sights[i]` is what the i-th meets. */
  method WaitRound(decode: Text -> Reading, witnesses: array<Witness>, sights: seq<Sight>, id: nat)
    returns (ok: bool, isDone: bool)
    requires |sights| == witnesses.Length
    modifies witnesses
    ensures ok <==> forall i :: 0 <= i < witnesses.Length ==> Visit(decode, old(witnesses[i]), sights[i], id).Some?
    ensures ok ==> forall i :: 0 <= i < witnesses.Length ==> Visit(decode, old(witnesses[i]), sights[i], id) == Some(witnesses[i])
    ensures isDone <==> ok && forall i :: 0 <= i < witnesses.Length ==> witnesses[i].isSettled
  {
    var settledCount := 0;
    ok, isDone := true, false;
    for index := 0 to witnesses.Length
      invariant 0 <= settledCount <= index
      invariant settledCount == index <==> forall i :: 0 <= i < index ==> witnesses[i].isSettled
      invariant forall i :: 0 <= i < index ==> Visit(decode, old(witnesses[i]), sights[i], id) == Some(witnesses[i])
      invariant forall i :: index <= i < witnesses.Length ==> witnesses[i] == old(witnesses[i])
    {
      ok := VisitOne(decode, witnesses, index, sights[index], id);
      if !ok { return; }
      if witnesses[index].isSettled { settledCount := settledCount + 1; }
    }
    isDone := settledCount == witnesses.Length;
  }

  /** What the `i`-th witness meets in each of the rounds. */
  function Column(rounds: seq<seq<Sight>>, i: nat): (sights: seq<Sight>)
    requires forall k :: 0 <= k < |rounds| ==> i < |rounds[k]|
    ensures |sights| == |rounds| && forall k :: 0 <= k < |rounds| ==> sights[k] == rounds[k][i]
  {
    seq(|rounds|, k requires 0 <= k < |rounds| => rounds[k][i])
  }

  lemma {:induction false} VisitAppend(decode: Text -> Reading, w: Witness, sights: seq<Sight>, sight: Sight, id: nat)
    requires VisitAll(decode, w, sights, id).Some?
    ensures VisitAll(decode, w, sights + [sight], id) == Visit(decode, VisitAll(decode, w, sights, id).value, sight, id)
    decreases |sights|
  {
    if sights == [] {
      assert [] + [sight] == [sight];
    } else {
      VisitAppend(decode, Visit(decode, w, sights[0], id).value, sights[1..], sight, id);
      assert (sights + [sight])[1..] == sights[1..] + [sight];
    }
  }

  /** After `n` rounds each witness stands as its own visits leave it. */
  ghost predicate HaveVisited(decode: Text -> Reading, before: seq<Witness>, after: seq<Witness>,
                              rounds: seq<seq<Sight>>, n: nat, id: nat)
    requires n <= |rounds| && forall k :: 0 <= k < |rounds| ==> |rounds[k]| == |before|
  {
    && |after| == |before|
    && forall i :: 0 <= i < |before| ==> VisitAll(decode, before[i], Column(rounds[..n], i), id) == Some(after[i])
  }

  lemma ColumnGrows(rounds: seq<seq<Sight>>, n: nat, i: nat)
    requires n < |rounds| && forall k :: 0 <= k < |rounds| ==> i < |rounds[k]|
    ensures Column(rounds[..n + 1], i) == Column(rounds[..n], i) + [rounds[n][i]]
  {
  }

  lemma RoundDone(decode: Text -> Reading, before: seq<Witness>, middle: seq<Witness>, after: seq<Witness>,
                  rounds: seq<seq<Sight>>, n: nat, id: nat)
    requires n < |rounds| && (forall k :: 0 <= k < |rounds| ==> |rounds[k]| == |before|)
    requires HaveVisited(decode, before, middle, rounds, n, id) && |after| == |before|
    requires forall i :: 0 <= i < |before| ==> Visit(decode, middle[i], rounds[n][i], id) == Some(after[i])
    ensures HaveVisited(decode, before, after, rounds, n + 1, id)
  {
    forall i | 0 <= i < |before|
      ensures VisitAll(decode, before[i], Column(rounds[..n + 1], i), id) == Some(after[i])
    {
      ColumnGrows(rounds, n, i);
      VisitAppend(decode, before[i], Column(rounds[..n], i), rounds[n][i], id);
    }
  }

  lemma {:induction false} FailedStays(decode: Text -> Reading, w: Witness, sights: seq<Sight>, more: seq<Sight>, id: nat)
    requires VisitAll(decode, w, sights, id).None?
    ensures VisitAll(decode, w, sights + more, id).None?
    decreases |sights|
  {
    if sights != [] {
      assert (sights + more)[1..] == sights[1..] + more;
      if Visit(decode, w, sights[0], id).Some? {
        FailedStays(decode, Visit(decode, w, sights[0], id).value, sights[1..], more, id);
      }
    }
  }

  /** After `n` rounds every witness has got through its visits and is settled. */
  ghost predicate AllSettled(decode: Text -> Reading, before: seq<Witness>, rounds: seq<seq<Sight>>, n: nat, id: nat)
    requires n <= |rounds| && forall k :: 0 <= k < |rounds| ==> |rounds[k]| == |before|
  {
    forall i :: 0 <= i < |before| ==>
      var v := VisitAll(decode, before[i], Column(rounds[..n], i), id); v.Some? && v.value.isSettled
  }

  /** A round that fails for one witness ends the wait: no later one settles them all. */
  lemma FailedRound(decode: Text -> Reading, before: seq<Witness>, middle: seq<Witness>, rounds: seq<seq<Sight>>, n: nat, m: nat, i: nat, id: nat)
    requires n < m <= |rounds| && i < |before| && (forall k :: 0 <= k < |rounds| ==> |rounds[k]| == |before|)
    requires HaveVisited(decode, before, middle, rounds, n, id) && Visit(decode, middle[i], rounds[n][i], id).None?
    ensures !AllSettled(decode, before, rounds, m, id)
  {
    ColumnGrows(rounds, n, i);
    VisitAppend(decode, before[i], Column(rounds[..n], i), rounds[n][i], id);
    FailedStays(decode, before[i], Column(rounds[..n + 1], i), Column(rounds[n + 1..m], i), id);
    assert Column(rounds[..m], i) == Column(rounds[..n + 1], i) + Column(rounds[n + 1..m], i);
  }

  lemma NeverSettled(decode: Text -> Reading, before: seq<Witness>, middle: seq<Witness>, rounds: seq<seq<Sight>>, n: nat, id: nat)
    requires n < |rounds| && (forall k :: 0 <= k < |rounds| ==> |rounds[k]| == |before|)
    requires HaveVisited(decode, before, middle, rounds, n, id)
    requires exists i :: 0 <= i < |before| && Visit(decode, middle[i], rounds[n][i], id).None?
    ensures forall m: nat :: n < m <= |rounds| ==> !AllSettled(decode, before, rounds, m, id)
  {
    var i :| 0 <= i < |before| && Visit(decode, middle[i], rounds[n][i], id).None?;
    forall m: nat | n < m <= |rounds|
      ensures !AllSettled(decode, before, rounds, m, id)
    {
      FailedRound(decode, before, middle, rounds, n, m, i, id);
    }
  }

  lemma SettledIff(decode: Text -> Reading, before: seq<Witness>, after: seq<Witness>, rounds: seq<seq<Sight>>, n: nat, id: nat)
    requires n <= |rounds| && (forall k :: 0 <= k < |rounds| ==> |rounds[k]| == |before|)
    requires HaveVisited(decode, before, after, rounds, n, id)
    ensures AllSettled(decode, before, rounds, n, id) <==> forall i :: 0 <= i < |before| ==> after[i].isSettled
  {
  }

  ghost predicate NoneSettled(decode: Text -> Reading, before: seq<Witness>, rounds: seq<seq<Sight>>, n: nat, id: nat)
    requires n <= |rounds| && forall k :: 0 <= k < |rounds| ==> |rounds[k]| == |before|
  {
    forall m: nat :: 0 < m <= n ==> !AllSettled(decode, before, rounds, m, id)
  }

  /** What one more round decides. */
  lemma RoundDecides(decode: Text -> Reading, before: seq<Witness>, middle: seq<Witness>, after: seq<Witness>,
                     rounds: seq<seq<Sight>>, n: nat, id: nat, isFine: bool, isDone: bool)
    requires n < |rounds| && |after| == |before| && (forall k :: 0 <= k < |rounds| ==> |rounds[k]| == |before|)
    requires HaveVisited(decode, before, middle, rounds, n, id) && NoneSettled(decode, before, rounds, n, id)
    requires isFine <==> forall i :: 0 <= i < |before| ==> Visit(decode, middle[i], rounds[n][i], id).Some?
    requires isFine ==> forall i :: 0 <= i < |before| ==> Visit(decode, middle[i], rounds[n][i], id) == Some(after[i])
    requires isDone <==> isFine && forall i :: 0 <= i < |before| ==> after[i].isSettled
    ensures isFine ==> HaveVisited(decode, before, after, rounds, n + 1, id)
    ensures isFine && !isDone ==> NoneSettled(decode, before, rounds, n + 1, id)
    ensures isDone ==> AllSettled(decode, before, rounds, n + 1, id)
    ensures !isFine ==> NoneSettled(decode, before, rounds, |rounds|, id)
  {
    if isFine {
      RoundDone(decode, before, middle, after, rounds, n, id);
      SettledIff(decode, before, after, rounds, n + 1, id);
    } else {
      NeverSettled(decode, before, middle, rounds, n, id);
    }
  }

  /** The wait, over the rounds that fit its time limit; it succeeds exactly when after one of them all are settled. */
  method WaitRetirement(decode: Text -> Reading, witnesses: array<Witness>, rounds: seq<seq<Sight>>, id: nat)
    returns (ok: bool, ghost spent: nat)
    requires forall k :: 0 <= k < |rounds| ==> |rounds[k]| == witnesses.Length
    modifies witnesses
    ensures ok ==> spent <= |rounds| && HaveVisited(decode, old(witnesses[..]), witnesses[..], rounds, spent, id)
    ensures ok ==> forall i :: 0 <= i < witnesses.Length ==> witnesses[i].isSettled
    ensures ok <==> !NoneSettled(decode, old(witnesses[..]), rounds, |rounds|, id)
  {
    ghost var before := witnesses[..];
    ok, spent := false, 0;
    for round := 0 to |rounds|
      invariant HaveVisited(decode, before, witnesses[..], rounds, round, id)
      invariant NoneSettled(decode, before, rounds, round, id)
    {
      ghost var middle := witnesses[..];
      var isFine, isDone := WaitRound(decode, witnesses, rounds[round], id);
      RoundDecides(decode, before, middle, witnesses[..], rounds, round, id, isFine, isDone);
      if !isFine { return; }
      if isDone { return true, round + 1; }
    }
  }

  /** A successful wait over growing traces: every witness saw the deletion two frames before some round. */
  lemma WaitMeansSeen(decode: Text -> Reading, before: seq<Witness>, after: seq<Witness>,
                      rounds: seq<seq<Sight>>, n: nat, id: nat, i: nat)
    requires n <= |rounds| && (forall k :: 0 <= k < |rounds| ==> |rounds[k]| == |before|)
    requires HaveVisited(decode, before, after, rounds, n, id)
    requires i < |before| && after[i].isSettled && !before[i].isSettled
    requires IsGrowing(Files(Column(rounds[..n], i))) && (n > 0 ==> before[i].offset <= |rounds[0][i].file|)
    ensures exists k: nat :: k < n && HasSettled(decode, before[i], Column(rounds[..n], i), id, k, after[i])
                             && (before[i].isDeleted || SawDeletion(decode, rounds[k][i].file, before[i], after[i], id))
  {
    SettledMeansSeen(decode, before[i], Column(rounds[..n], i), id);
  }
}
