/**
 The patcher: selecting files from a manifest, downloading and replacing them on
 a disk whose every operation may fail, and reporting progress.
 */
module Patcher {
  import opened Arithmetic
  import opened Common

  type Content = string
  type Files = map<string, Content>

  /**
   `target` is absent when the name is no safe path below the root.  Targets that
   the file system takes for the same file are taken to be the same string.
   */
  datatype Entry = Entry(target: Option<string>, md5: string, size: int)

  function Temporary(target: string): string { target + ".patching" }
  function Backup(target: string): string { target + ".patching.previous" }

  predicate IsSpace(c: char) {
    var n := c as int;
    || 9 <= n <= 13 || n == 32 || n == 0x85 || n == 0xA0 || n == 0x1680 || 0x2000 <= n <= 0x200A
    || n == 0x2028 || n == 0x2029 || n == 0x202F || n == 0x205F || n == 0x3000
  }

  predicate IsBlank(s: string) {
    forall k :: 0 <= k < |s| ==> IsSpace(s[k])
  }

  function FoldChar(c: char): char {
    if 'A' <= c <= 'Z' then (c as int + 32) as char else c
  }

  predicate EqualFold(a: string, b: string) {
    |a| == |b| && forall k :: 0 <= k < |a| ==> FoldChar(a[k]) == FoldChar(b[k])
  }

  /** The content meets the entry's checksum, if it has one. */
  predicate IsVerified(digest: Content -> string, entry: Entry, content: Content) {
    IsBlank(entry.md5) || EqualFold(digest(content), entry.md5)
  }

  predicate IsAcceptable(digest: Content -> string, entry: Entry, content: Content) {
    IsVerified(digest, entry, content) && (entry.size > 0 ==> |content| == entry.size)
  }

  predicate IsNeeded(digest: Content -> string, files: Files, entry: Entry)
    requires entry.target.Some?
  {
    entry.target.value !in files || !IsVerified(digest, entry, files[entry.target.value])
  }

  function NormalizedSize(size: int): nat { if size < 1 then 1 else size }

  /** Two characters that differ in case at most. */
  predicate IsSameLetter(c: char, d: char) {
    var m, n := c as int, d as int;
    m == n || (65 <= m <= 90 && n == m + 32) || (65 <= n <= 90 && m == n + 32)
  }

  lemma FoldExact(c: char, d: char)
    ensures FoldChar(c) == FoldChar(d) <==> IsSameLetter(c, d)
  {
  }

  /** The white space that trimming removes. */
  const Spaces: set<int> :=
    {9, 10, 11, 12, 13, 32, 0x85, 0xA0, 0x1680, 0x2000, 0x2001, 0x2002, 0x2003, 0x2004, 0x2005, 0x2006, 0x2007,
     0x2008, 0x2009, 0x200A, 0x2028, 0x2029, 0x202F, 0x205F, 0x3000}

  /** Checksums agree when they differ in the case of letters at most, and a blank one asks for nothing. */
  lemma ChecksumMeaning(digest: Content -> string, entry: Entry, content: Content)
    ensures IsVerified(digest, entry, content) <==>
            || (forall k :: 0 <= k < |entry.md5| ==> entry.md5[k] as int in Spaces)
            || (&& |digest(content)| == |entry.md5|
                && forall k :: 0 <= k < |entry.md5| ==> IsSameLetter(digest(content)[k], entry.md5[k]))
  {
    forall k | 0 <= k < |entry.md5|
      ensures IsSpace(entry.md5[k]) <==> entry.md5[k] as int in Spaces
    {
      SpaceExact(entry.md5[k]);
    }
    forall k | 0 <= k < |entry.md5| && |digest(content)| == |entry.md5|
      ensures FoldChar(digest(content)[k]) == FoldChar(entry.md5[k]) <==> IsSameLetter(digest(content)[k], entry.md5[k])
    {
      FoldExact(digest(content)[k], entry.md5[k]);
    }
  }

  lemma SpaceExact(c: char)
    ensures IsSpace(c) <==> c as int in Spaces
  {
  }

  // -------------------------------------------------------------- replacement

  /** The complete old or new content can be found where the source looks for it. */
  predicate IsRecoverable(files: Files, target: string, before: Content, after: Content) {
    || (target in files && (files[target] == before || files[target] == after))
    || (Backup(target) in files && files[Backup(target)] == before)
  }

  datatype Replacement =
    | Replaced | BackupRemoveFailed | TargetStatFailed | BackupRenameFailed
    | InstallFailed      // the old file was put back
    | RestoreFailed | CleanupFailed

  /** How the files stand after a replacement of an existing target. */
  function Replace(files: Files, target: string, outcome: Replacement): Files
    requires target in files && Temporary(target) in files
  {
    var temporary, backup := Temporary(target), Backup(target);
    match outcome
    case Replaced => (files - {temporary, backup})[target := files[temporary]]
    case BackupRemoveFailed => files
    case TargetStatFailed => files - {backup}
    case BackupRenameFailed => files - {backup}
    case InstallFailed => files - {backup}
    case RestoreFailed => (files - {target})[backup := files[target]]
    case CleanupFailed => (files - {temporary})[target := files[temporary]][backup := files[target]]
  }

  class Disk {
    var files: Files
    var faults: seq<bool>              // whether each coming operation fails; none does once they run out
    ghost var history: seq<Files>      // every state since the disk was made

    constructor (files: Files, faults: seq<bool>)
      ensures this.files == files && this.faults == faults && history == [files]
    {
      this.files, this.faults, history := files, faults, [files];
    }

    method NextFails() returns (fails: bool)
      modifies this`faults
      ensures old(faults) == [] ==> !fails && faults == []
    {
      if faults == [] { return false; }
      fails := faults[0];
      faults := faults[1..];
    }

    method Put(next: Files)
      modifies this`files, this`history
      ensures files == next && history == old(history) + [next]
    {
      files := next;
      history := history + [next];
    }

    /** A missing file is no failure. */
    method Remove(path: string) returns (ok: bool)
      modifies this
      ensures files == if ok then old(files) - {path} else old(files)
      ensures history == old(history) + [files]
      ensures old(faults) == [] ==> ok && faults == []
    {
      var fails := NextFails();
      ok := !fails;
      Put(if ok then files - {path} else files);
    }

    method Rename(from: string, to: string) returns (ok: bool)
      requires from in files && from != to
      modifies this
      ensures files == if ok then (old(files) - {from})[to := old(files)[from]] else old(files)
      ensures history == old(history) + [files]
      ensures old(faults) == [] ==> ok && faults == []
    {
      var fails := NextFails();
      ok := !fails;
      Put(if ok then (files - {from})[to := files[from]] else files);
    }

    /** A write that fails may leave no file, or the beginning of one. */
    method Write(path: string, content: Content) returns (ok: bool)
      modifies this
      ensures ok ==> files == old(files)[path := content]
      ensures !ok ==> files == old(files) || exists n: nat :: n <= |content| && files == old(files)[path := content[..n]]
      ensures history == old(history) + [files]
      ensures old(faults) == [] ==> ok && faults == []
    {
      var fails := NextFails();
      ok := !fails;
      if ok {
        Put(files[path := content]);
      } else if * {
        Put(files);
      } else {
        var n: nat :| n <= |content|;
        Put(files[path := content[..n]]);
      }
    }

    /** The second rename and what follows it, once the target stands at its backup. */
    method PutInPlace(target: string, ghost before: Content) returns (outcome: Replacement)
      requires target !in files && Temporary(target) in files && Backup(target) in files && files[Backup(target)] == before
      modifies this
      ensures outcome in {Replaced, InstallFailed, RestoreFailed, CleanupFailed}
      ensures files == Replace((old(files) - {Backup(target)})[target := before], target, outcome)
      ensures |history| >= |old(history)| && history[..|old(history)|] == old(history)
      ensures forall k :: |old(history)| <= k < |history| ==>
                IsRecoverable(history[k], target, before, old(files)[Temporary(target)])
      ensures old(faults) == [] ==> outcome == Replaced && faults == []
    {
      var temporary, backup := Temporary(target), Backup(target);
      PathsDiffer(target);
      var ok := Rename(temporary, target);
      if !ok {
        var isRestored := Rename(backup, target);
        if !isRestored { return RestoreFailed; }
        return InstallFailed;
      }
      ok := Remove(backup);
      if !ok { return CleanupFailed; }
      outcome := Replaced;
    }

    /** The two renames and what follows them, once no backup is left from before. */
    method Swap(target: string) returns (outcome: Replacement)
      requires target in files && Temporary(target) in files && Backup(target) !in files
      modifies this
      ensures outcome != BackupRemoveFailed && outcome != TargetStatFailed
      ensures files == Replace(old(files), target, outcome)
      ensures |history| >= |old(history)| && history[..|old(history)|] == old(history)
      ensures forall k :: |old(history)| <= k < |history| ==>
                IsRecoverable(history[k], target, old(files)[target], old(files)[Temporary(target)])
      ensures old(faults) == [] ==> outcome == Replaced && faults == []
    {
      PathsDiffer(target);
      ghost var before := files;
      var ok := Rename(target, Backup(target));
      if !ok { return BackupRenameFailed; }
      assert (files - {Backup(target)})[target := before[target]] == before;
      outcome := PutInPlace(target, before[target]);
    }

    /** Installs the temporary over an existing target, with a backup to fall back on. */
    method ReplaceExisting(target: string) returns (outcome: Replacement)
      requires target in files && Temporary(target) in files
      modifies this
      ensures files == Replace(old(files), target, outcome)
      ensures |history| >= |old(history)| && history[..|old(history)|] == old(history)
      ensures forall k :: |old(history)| <= k < |history| ==>
                IsRecoverable(history[k], target, old(files)[target], old(files)[Temporary(target)])
      ensures old(faults) == [] ==> outcome == Replaced && faults == []
    {
      PathsDiffer(target);
      var ok := Remove(Backup(target));
      if !ok { return BackupRemoveFailed; }
      var statFails := NextFails();
      if statFails { return TargetStatFailed; }
      outcome := Swap(target);
      ReplaceAfterRemoval(old(files), target, outcome);
    }

    /** Installs the temporary where no target exists. */
    method ReplaceMissing(target: string) returns (ok: bool)
      requires target !in files && Temporary(target) in files
      modifies this
      ensures ok ==> files == (old(files) - {Temporary(target), Backup(target)})[target := old(files)[Temporary(target)]]
      ensures !ok ==> files == old(files) || files == old(files) - {Backup(target)}
      ensures |history| >= |old(history)| && history[..|old(history)|] == old(history)
      ensures old(faults) == [] ==> ok && faults == []
    {
      PathsDiffer(target);
      ok := Remove(Backup(target));
      if !ok { return; }
      var statFails := NextFails();
      if statFails { return false; }
      ok := Rename(Temporary(target), target);
    }

    /** One download: the temporary is written, checked against size and checksum, and installed. */
    method Download(digest: Content -> string, entry: Entry, answer: Option<Content>) returns (ok: bool)
      modifies this
      ensures ok ==> entry.target.Some? && answer.Some? && files == Patched(old(files), entry.target.value, answer.value)
      ensures ok ==> (IsBlank(entry.md5) || EqualFold(digest(answer.value), entry.md5))
                     && (entry.size <= 0 || |answer.value| == entry.size)
      ensures old(faults) == [] ==>
                && faults == []
                && (ok <==> entry.target.Some? && answer.Some? && IsAcceptable(digest, entry, answer.value))
      ensures entry.target.Some? ==> SameElsewhere(old(files), files, Companions(entry.target.value))
      ensures entry.target.None? ==> files == old(files)
      ensures |history| >= |old(history)| && history[..|old(history)|] == old(history)
      ensures entry.target.Some? && entry.target.value in old(files) && answer.Some? ==>
                && IsRecoverable(files, entry.target.value, old(files)[entry.target.value], answer.value)
                && forall k :: |old(history)| <= k < |history| ==>
                     IsRecoverable(history[k], entry.target.value, old(files)[entry.target.value], answer.value)
      ensures entry.target.Some? && (answer.None? || !IsAcceptable(digest, entry, answer.value)) ==>
                !ok && SameElsewhere(old(files), files, {Temporary(entry.target.value)})
    {
      if entry.target.None? || answer.None? { return false; }
      var target := entry.target.value;
      var temporary := Temporary(target);
      PathsDiffer(target);
      ok := Write(temporary, answer.value);
      if !ok {
        var _ := Remove(temporary);
        return;
      }
      if (entry.size > 0 && |answer.value| != entry.size) || !IsVerified(digest, entry, answer.value) {
        ok := Remove(temporary);
        return false;
      }
      ok := Install(target);
    }

    /** Puts the temporary in place, or removes it when that fails. */
    method Install(target: string) returns (ok: bool)
      requires Temporary(target) in files
      modifies this
      ensures old(faults) == [] ==> ok && faults == []
      ensures ok ==> files == Patched(old(files), target, old(files)[Temporary(target)])
      ensures SameElsewhere(old(files), files, Companions(target))
      ensures |history| >= |old(history)| && history[..|old(history)|] == old(history)
      ensures target in old(files) ==>
                && IsRecoverable(files, target, old(files)[target], old(files)[Temporary(target)])
                && forall k :: |old(history)| <= k < |history| ==>
                     IsRecoverable(history[k], target, old(files)[target], old(files)[Temporary(target)])
    {
      PathsDiffer(target);
      if target in files {
        var outcome := ReplaceExisting(target);
        ok := outcome == Replaced;
      } else {
        ok := ReplaceMissing(target);
      }
      if !ok {
        var _ := Remove(Temporary(target));
      }
    }
  }

  /** What each outcome leaves at target, temporary and backup; nothing else changes. */
  lemma ReplacementMeaning(files: Files, target: string, outcome: Replacement)
    requires target in files && Temporary(target) in files
    ensures var after, temporary, backup := Replace(files, target, outcome), Temporary(target), Backup(target);
            && SameElsewhere(files, after, Companions(target))
            && (outcome.Replaced? ==>
                  target in after && after[target] == files[temporary] && temporary !in after && backup !in after)
            && (outcome.BackupRemoveFailed? ==> after == files)
            && (outcome.TargetStatFailed? || outcome.BackupRenameFailed? || outcome.InstallFailed? ==>
                  && target in after && after[target] == files[target] && backup !in after
                  && temporary in after && after[temporary] == files[temporary])
            && (outcome.RestoreFailed? ==>
                  && target !in after && backup in after && after[backup] == files[target]
                  && temporary in after && after[temporary] == files[temporary])
            && (outcome.CleanupFailed? ==>
                  && target in after && after[target] == files[temporary] && temporary !in after
                  && backup in after && after[backup] == files[target])
  {
    PathsDiffer(target);
  }

  /** A backup from before makes no difference once the replacement has begun. */
  lemma ReplaceAfterRemoval(files: Files, target: string, outcome: Replacement)
    requires target in files && Temporary(target) in files && outcome != BackupRemoveFailed
    ensures target in files - {Backup(target)} && Temporary(target) in files - {Backup(target)}
    ensures Replace(files - {Backup(target)}, target, outcome) == Replace(files, target, outcome)
  {
    PathsDiffer(target);
  }

  lemma PathsDiffer(target: string)
    ensures target != Temporary(target) && target != Backup(target) && Temporary(target) != Backup(target)
    ensures Temporary(target) == target + ".patching" && Backup(target) == target + ".patching.previous"
  {
    assert |target| < |Temporary(target)| < |Backup(target)|;
  }

  function Companions(target: string): set<string> {
    {target, Temporary(target), Backup(target)}
  }

  ghost predicate SameElsewhere(a: Files, b: Files, touched: set<string>) {
    forall p :: p !in touched ==> (p in a <==> p in b) && (p in a && p in b ==> a[p] == b[p])
  }

  /** The files after a download that succeeded. */
  function Patched(files: Files, target: string, content: Content): Files {
    (files - {Temporary(target), Backup(target)})[target := content]
  }

  // --------------------------------------------------------------- the plan

  predicate HaveTargets(entries: seq<Entry>) {
    forall k :: 0 <= k < |entries| ==> entries[k].target.Some?
  }

  function Selected(digest: Content -> string, files: Files, manifest: seq<Entry>): seq<Entry>
    requires HaveTargets(manifest)
  {
    if manifest == [] then []
    else Selected(digest, files, manifest[..|manifest| - 1])
         + (var e := manifest[|manifest| - 1]; if IsNeeded(digest, files, e) then [e] else [])
  }

  lemma SelectNext(digest: Content -> string, files: Files, manifest: seq<Entry>, n: nat)
    requires n < |manifest| && HaveTargets(manifest[..n + 1])
    ensures HaveTargets(manifest[..n]) && manifest[n].target.Some?
    ensures Selected(digest, files, manifest[..n + 1])
         == Selected(digest, files, manifest[..n]) + (if IsNeeded(digest, files, manifest[n]) then [manifest[n]] else [])
  {
    assert manifest[..n + 1][..n] == manifest[..n] && manifest[..n + 1][n] == manifest[n];
  }

  /** What the selection loop holds after `n` entries. */
  predicate HasSelected(digest: Content -> string, files: Files, manifest: seq<Entry>, n: nat, selected: seq<Entry>, downloadByte: int) {
    && n <= |manifest| && HaveTargets(manifest[..n])
    && selected == Selected(digest, files, manifest[..n]) && downloadByte == Sum64(selected)
  }

  lemma SelectedOne(digest: Content -> string, files: Files, manifest: seq<Entry>, n: nat, selected: seq<Entry>, downloadByte: int)
    requires n < |manifest| && HasSelected(digest, files, manifest, n, selected, downloadByte)
    requires manifest[n].target.Some?
    ensures if IsNeeded(digest, files, manifest[n])
            then HasSelected(digest, files, manifest, n + 1, selected + [manifest[n]], CountMore(downloadByte, manifest[n]))
            else HasSelected(digest, files, manifest, n + 1, selected, downloadByte)
  {
    SelectNext(digest, files, manifest, n);
    SumOne(selected, manifest[n]);
  }

  /** The selection loop of `Build`; an unsafe name stops it. */
  method Build(digest: Content -> string, files: Files, manifest: seq<Entry>)
    returns (plan: Option<seq<Entry>>, downloadByte: int)
    ensures plan.Some? <==> HaveTargets(manifest)
    ensures plan.Some? ==> plan.value == Selected(digest, files, manifest) && downloadByte == Sum64(plan.value)
  {
    var selected: seq<Entry> := [];
    downloadByte := 0;
    for index := 0 to |manifest|
      invariant HasSelected(digest, files, manifest, index, selected, downloadByte)
    {
      var entry := manifest[index];
      if entry.target.None? { return None, 0; }
      SelectedOne(digest, files, manifest, index, selected, downloadByte);
      if IsNeeded(digest, files, entry) {
        selected := selected + [entry];
        downloadByte := CountMore(downloadByte, entry);
      }
    }
    assert manifest[..|manifest|] == manifest;
    plan := Some(selected);
  }

  lemma {:induction false} SelectedMembers(digest: Content -> string, files: Files, manifest: seq<Entry>)
    requires HaveTargets(manifest)
    ensures forall e :: e in Selected(digest, files, manifest) <==> e in manifest && IsNeeded(digest, files, e)
    ensures forall e :: e in Selected(digest, files, manifest) <==>
              && e in manifest
              && (e.target.value in files ==>
                    !IsBlank(e.md5) && !EqualFold(digest(files[e.target.value]), e.md5))
  {
    if manifest != [] {
      SelectedMembers(digest, files, manifest[..|manifest| - 1]);
      assert manifest == manifest[..|manifest| - 1] + [manifest[|manifest| - 1]];
    }
  }

  /** No file of one entry is a file of another. */
  predicate AreApart(manifest: seq<Entry>) {
    && HaveTargets(manifest)
    && forall i, j :: 0 <= i < |manifest| && 0 <= j < |manifest| && manifest[i] != manifest[j] ==>
         Companions(manifest[i].target.value) !! Companions(manifest[j].target.value)
  }

  function TotalSize(plan: seq<Entry>): nat {
    if plan == [] then 0 else TotalSize(plan[..|plan| - 1]) + NormalizedSize(plan[|plan| - 1].size)
  }

  const INT64_MAX: int := 0x7FFF_FFFF_FFFF_FFFF

  function Wrap64(x: int): int {
    var low := x % 0x1_0000_0000_0000_0000;
    if low > INT64_MAX then low - 0x1_0000_0000_0000_0000 else low
  }

  function TruncatedQuotient(a: int, b: int): int
    requires b > 0
  {
    if a >= 0 then a / b else -(-a / b)
  }

  /** The sizes of a plan added up in the source's 64-bit arithmetic. */
  function Sum64(plan: seq<Entry>): int {
    Wrap64(TotalSize(plan))
  }

  lemma WrapAdds(a: int, b: int)
    ensures Wrap64(Wrap64(a) + b) == Wrap64(a + b)
  {
  }

  lemma SumOne(plan: seq<Entry>, entry: Entry)
    ensures Sum64(plan + [entry]) == Wrap64(Sum64(plan) + NormalizedSize(entry.size))
  {
    assert (plan + [entry])[..|plan|] == plan;
    WrapAdds(TotalSize(plan), NormalizedSize(entry.size));
  }

  /** The reported percentage, in the source's 64-bit arithmetic. */
  function Progress(completed: int, total: int): int {
    TruncatedQuotient(Wrap64(completed * 100), if total < 1 then 1 else total)
  }

  lemma PercentBounds(completed: nat, total: nat)
    requires 0 < total && completed <= total
    ensures 0 <= completed * 100 / total <= 100
    ensures total * 100 / total == 100
  {
    assert total * 100 == 100 * total;
    DivisionIsUnique(100, 0, total);
    QuotientMonotone(completed * 100, total * 100, total);
  }

  /** What a plan's size is, one entry after the other, and its sum in 64-bit arithmetic. */
  lemma SizeMeaning(plan: seq<Entry>, entry: Entry)
    ensures TotalSize([]) == 0 && TotalSize(plan + [entry]) == TotalSize(plan) + (if entry.size >= 1 then entry.size else 1)
    ensures -0x8000_0000_0000_0000 <= Sum64(plan) <= 0x7FFF_FFFF_FFFF_FFFF
    ensures (TotalSize(plan) - Sum64(plan)) % 0x1_0000_0000_0000_0000 == 0
  {
    assert (plan + [entry])[..|plan|] == plan;
  }

  lemma ProgressIs(completed: nat, total: nat)
    requires completed <= total && 0 < total && total * 100 <= INT64_MAX
    ensures Progress(completed, total) == completed * 100 / total
  {
  }

  /** While a hundred times the total fits 64 bits, progress stays in 0..100 and never falls. */
  lemma ProgressRises(earlier: nat, later: nat, total: nat)
    requires earlier <= later <= total && total * 100 <= INT64_MAX
    ensures 0 <= Progress(earlier, total) <= Progress(later, total) <= 100
  {
    if total > 0 {
      ProgressIs(earlier, total);
      ProgressIs(later, total);
      PercentBounds(earlier, total);
      PercentBounds(later, total);
      QuotientMonotone(earlier * 100, later * 100, total);
    }
  }

  /** The last download reports exactly 100 when, and only when, that product fits. */
  lemma ProgressReachesHundred(total: nat)
    requires 0 < total
    ensures Progress(total, total) == 100 <==> total * 100 <= INT64_MAX
  {
    PercentBounds(total, total);
    if total * 100 > INT64_MAX {
      var w := Wrap64(total * 100);
      if w >= 0 {
        assert w < 100 * total;
        QuotientBelow(w, 100, total);
      } else {
        QuotientMonotone(0, -w, total);
      }
    }
  }

  // ------------------------------------------------------------ convergence

  /** The files after every download of `plan` has succeeded with the given answers. */
  function Applied(files: Files, plan: seq<Entry>, answers: seq<Content>): Files
    requires |plan| == |answers| && HaveTargets(plan)
    decreases |plan|
  {
    if plan == [] then files
    else
      var n := |plan| - 1;
      Patched(Applied(files, plan[..n], answers[..n]), plan[n].target.value, answers[n])
  }

  function Given(answers: seq<Option<Content>>): (r: seq<Content>)
    requires forall k :: 0 <= k < |answers| ==> answers[k].Some?
    ensures |r| == |answers| && forall k :: 0 <= k < |r| ==> r[k] == answers[k].value
  {
    if answers == [] then [] else Given(answers[..|answers| - 1]) + [answers[|answers| - 1].value]
  }

  /** What the first `n` downloads report. */
  function Percentages(plan: seq<Entry>, n: nat): seq<int>
    requires n <= |plan|
  {
    if n == 0 then [] else Percentages(plan, n - 1) + [Progress(Sum64(plan[..n]), Sum64(plan))]
  }

  /** The first `n` downloads have succeeded. */
  ghost predicate HasApplied(digest: Content -> string, before: Files, files: Files, plan: seq<Entry>,
                             answers: seq<Option<Content>>, n: nat)
  {
    && n <= |plan| == |answers|
    && (forall k :: 0 <= k < n ==> plan[k].target.Some? && answers[k].Some? && IsAcceptable(digest, plan[k], answers[k].value))
    && files == Applied(before, plan[..n], Given(answers[..n]))
  }

  lemma AppliedOne(digest: Content -> string, before: Files, files: Files, plan: seq<Entry>,
                   answers: seq<Option<Content>>, n: nat)
    requires HasApplied(digest, before, files, plan, answers, n) && n < |plan|
    requires plan[n].target.Some? && answers[n].Some? && IsAcceptable(digest, plan[n], answers[n].value)
    ensures HasApplied(digest, before, Patched(files, plan[n].target.value, answers[n].value), plan, answers, n + 1)
  {
    assert plan[..n + 1][..n] == plan[..n] && answers[..n + 1][..n] == answers[..n];
    assert Given(answers[..n + 1])[..n] == Given(answers[..n]);
  }

  lemma SumNext(plan: seq<Entry>, n: nat)
    requires n < |plan|
    ensures Sum64(plan[..n + 1]) == Wrap64(Sum64(plan[..n]) + NormalizedSize(plan[n].size))
  {
    assert plan[..n + 1] == plan[..n] + [plan[n]];
    SumOne(plan[..n], plan[n]);
  }

  /** The counter and the percentages after `n` downloads. */
  predicate HasReported(plan: seq<Entry>, completed: int, progress: seq<int>, n: nat) {
    n <= |plan| && completed == Sum64(plan[..n]) && progress == Percentages(plan, n)
  }

  function CountMore(completed: int, entry: Entry): int {
    Wrap64(completed + NormalizedSize(entry.size))
  }

  lemma ReportedOne(plan: seq<Entry>, completed: int, progress: seq<int>, n: nat)
    requires HasReported(plan, completed, progress, n) && n < |plan|
    ensures HasReported(plan, CountMore(completed, plan[n]),
                        progress + [Progress(CountMore(completed, plan[n]), Sum64(plan))], n + 1)
  {
    SumNext(plan, n);
  }

  /** Every planned file has a safe name and an answer that passes the tests of its entry. */
  ghost predicate CanApply(digest: Content -> string, plan: seq<Entry>, answers: seq<Option<Content>>)
    requires |answers| == |plan|
  {
    forall k :: 0 <= k < |plan| ==>
      plan[k].target.Some? && answers[k].Some? && IsAcceptable(digest, plan[k], answers[k].value)
  }

  /** Downloads every planned file; stops at the first failure.  `answers[k]` is what the server gives for `plan[k]`. */
  method Apply(disk: Disk, digest: Content -> string, plan: seq<Entry>, downloadByte: int, answers: seq<Option<Content>>)
    returns (ok: bool, progress: seq<int>)
    requires |answers| == |plan| && downloadByte == Sum64(plan)
    modifies disk
    ensures ok ==> HasApplied(digest, old(disk.files), disk.files, plan, answers, |plan|)
    ensures old(disk.faults) == [] ==> (ok <==> CanApply(digest, plan, answers))
    ensures ok ==> progress == Percentages(plan, |plan|) + [100]
  {
    var completed, total := 0, downloadByte;
    ghost var before := disk.files;
    ok, progress := true, [];
    assert plan[..0] == [] && answers[..0] == [];
    for index := 0 to |plan|
      invariant HasApplied(digest, before, disk.files, plan, answers, index)
      invariant HasReported(plan, completed, progress, index)
      invariant old(disk.faults) == [] ==> disk.faults == []
    {
      ghost var files := disk.files;
      ok := disk.Download(digest, plan[index], answers[index]);
      if !ok { return; }
      AppliedOne(digest, before, files, plan, answers, index);
      ReportedOne(plan, completed, progress, index);
      completed := CountMore(completed, plan[index]);
      progress := progress + [Progress(completed, total)];
    }
    progress := progress + [100];
  }

  lemma {:induction false} PrefixSize(plan: seq<Entry>, m: nat, n: nat)
    requires m <= n <= |plan|
    ensures TotalSize(plan[..m]) <= TotalSize(plan[..n])
    decreases n
  {
    if m < n {
      PrefixSize(plan, m, n - 1);
      assert plan[..n][..n - 1] == plan[..n - 1];
    }
  }

  lemma NotWrapped(plan: seq<Entry>, n: nat)
    requires n <= |plan| && TotalSize(plan) <= INT64_MAX
    ensures Sum64(plan[..n]) == TotalSize(plan[..n]) <= TotalSize(plan)
  {
    assert plan[..|plan|] == plan;
    PrefixSize(plan, n, |plan|);
  }

  predicate IsRising(progress: seq<int>) {
    && (forall k :: 0 <= k < |progress| ==> 0 <= progress[k] <= 100)
    && (forall k :: 0 < k < |progress| ==> progress[k - 1] <= progress[k])
  }

  lemma {:induction false} PercentagesLast(plan: seq<Entry>, n: nat)
    requires n <= |plan|
    ensures |Percentages(plan, n)| == n
    ensures n > 0 ==> Percentages(plan, n)[n - 1] == Progress(Sum64(plan[..n]), Sum64(plan))
  {
    if n > 0 {
      PercentagesLast(plan, n - 1);
    }
  }

  lemma OneMoreRises(plan: seq<Entry>, n: nat)
    requires 0 < n <= |plan| && TotalSize(plan) * 100 <= INT64_MAX
    ensures 0 <= Progress(Sum64(plan[..n - 1]), Sum64(plan)) <= Progress(Sum64(plan[..n]), Sum64(plan)) <= 100
  {
    NotWrapped(plan, n);
    NotWrapped(plan, n - 1);
    NotWrapped(plan, |plan|);
    assert plan[..|plan|] == plan;
    PrefixSize(plan, n - 1, n);
    ProgressRises(TotalSize(plan[..n - 1]), TotalSize(plan[..n]), TotalSize(plan));
  }

  /** Over a whole plan the reported percentages never fall and stay in 0..100. */
  lemma {:induction false} PercentagesRise(plan: seq<Entry>, n: nat)
    requires n <= |plan| && TotalSize(plan) * 100 <= INT64_MAX
    ensures IsRising(Percentages(plan, n))
    decreases n
  {
    PercentagesLast(plan, n);
    if n > 0 {
      PercentagesRise(plan, n - 1);
      PercentagesLast(plan, n - 1);
      OneMoreRises(plan, n);
    }
  }

  /** They rise within 0..100 and end at 100. */
  predicate IsProper(progress: seq<int>) {
    IsRising(progress) && progress != [] && progress[|progress| - 1] == 100
  }

  /**
   The percentages of a plan are proper when a hundred times its size fits 64 bits;
   of a plan whose sizes add up within 64 bits, only then.
   */
  lemma PercentagesIff(plan: seq<Entry>)
    requires plan != []
    ensures |Percentages(plan, |plan|)| == |plan|
    ensures TotalSize(plan) * 100 <= INT64_MAX ==> IsProper(Percentages(plan, |plan|))
    ensures TotalSize(plan) <= INT64_MAX ==>
              (IsProper(Percentages(plan, |plan|)) <==> TotalSize(plan) * 100 <= INT64_MAX)
  {
    PercentagesLast(plan, |plan|);
    assert plan[..|plan|] == plan;
    if TotalSize(plan) <= INT64_MAX {
      NotWrapped(plan, |plan|);
      ProgressReachesHundred(TotalSize(plan));
    }
    if TotalSize(plan) * 100 <= INT64_MAX {
      PercentagesRise(plan, |plan|);
    }
  }

  lemma PercentagesNext(plan: seq<Entry>, n: nat)
    requires n < |plan|
    ensures Percentages(plan, n + 1) == Percentages(plan, n) + [Progress(Sum64(plan[..n + 1]), Sum64(plan))]
  {
  }

  const Quarter := Entry(None, "", 0x4000_0000_0000_0000)
  const HugePlan := [Quarter, Quarter, Quarter, Quarter, Entry(None, "", 1)]

  lemma HugeSum(n: nat)
    requires n < 4
    ensures Sum64(HugePlan[..n + 1]) == Wrap64(Sum64(HugePlan[..n]) + 0x4000_0000_0000_0000)
  {
    SumNext(HugePlan, n);
  }

  lemma HugeSumsHalf()
    ensures Sum64(HugePlan[..0]) == 0 && Sum64(HugePlan[..1]) == 0x4000_0000_0000_0000
    ensures Sum64(HugePlan[..2]) == -0x8000_0000_0000_0000
  {
    HugeSum(0);
    HugeSum(1);
  }

  lemma HugeSums()
    ensures Sum64(HugePlan[..0]) == 0 && Sum64(HugePlan[..1]) == 0x4000_0000_0000_0000
    ensures Sum64(HugePlan[..2]) == -0x8000_0000_0000_0000 && Sum64(HugePlan[..3]) == -0x4000_0000_0000_0000
    ensures Sum64(HugePlan[..4]) == 0 && Sum64(HugePlan[..5]) == 1
  {
    HugeSumsHalf();
    HugeSum(2);
    HugeSum(3);
    SumNext(HugePlan, 4);
  }

  lemma HugeSize()
    ensures TotalSize(HugePlan) > INT64_MAX
  {
    assert HugePlan[..5] == HugePlan;
    PrefixSize(HugePlan, 2, 5);
    assert HugePlan[..2] == [Quarter, Quarter] && [Quarter, Quarter][..1] == [Quarter] && [Quarter][..0] == [];
  }

  /** Sizes that add up past 64 bits can report a rising percentage all the same. */
  lemma WrappedSumRises()
    ensures TotalSize(HugePlan) > INT64_MAX && Percentages(HugePlan, |HugePlan|) == [0, 0, 0, 0, 100]
  {
    HugeSize();
    HugeSums();
    assert HugePlan[..5] == HugePlan;
    PercentagesNext(HugePlan, 0);
    PercentagesNext(HugePlan, 1);
    PercentagesNext(HugePlan, 2);
    PercentagesNext(HugePlan, 3);
    PercentagesNext(HugePlan, 4);
  }

  lemma MembersApart(manifest: seq<Entry>, e: Entry, f: Entry)
    requires AreApart(manifest) && e in manifest && f in manifest && e != f
    ensures e.target.Some? && f.target.Some? && Companions(e.target.value) !! Companions(f.target.value)
  {
    var i :| 0 <= i < |manifest| && manifest[i] == e;
    var j :| 0 <= j < |manifest| && manifest[j] == f;
  }

  lemma PlannedTargets(plan: seq<Entry>, manifest: seq<Entry>)
    requires HaveTargets(manifest) && forall p :: p in plan ==> p in manifest
    ensures HaveTargets(plan)
  {
    forall k | 0 <= k < |plan|
      ensures plan[k].target.Some?
    {
      assert plan[k] in manifest;
    }
  }

  /** The last entry of a plan whose target, temporary or backup is at `path`. */
  function LastTouch(plan: seq<Entry>, path: string): (k: Option<nat>)
    requires HaveTargets(plan)
    ensures k.Some? ==> k.value < |plan| && path in Companions(plan[k.value].target.value)
  {
    if plan == [] then None
    else
      var n := |plan| - 1;
      if path in Companions(plan[n].target.value) then Some(n) else LastTouch(plan[..n], path)
  }

  /**
   Downloading `f` leaves `e` to be done again: it removes the target of `e`, or it
   puts there what the checksum of `e` does not accept.  Where both have a checksum
   their texts decide.
   */
  predicate Undoes(digest: Content -> string, f: Entry, content: Content, e: Entry)
    requires e.target.Some? && f.target.Some?
  {
    if e.target.value != f.target.value then true
    else if IsBlank(e.md5) then false
    else if !IsBlank(f.md5) then !EqualFold(f.md5, e.md5)
    else !EqualFold(digest(content), e.md5)
  }

  /** The last download that touches the target of `e` leaves `e` to be done again. */
  predicate IsUndone(digest: Content -> string, plan: seq<Entry>, answers: seq<Content>, e: Entry)
    requires HaveTargets(plan) && |answers| == |plan| && e.target.Some?
  {
    var k := LastTouch(plan, e.target.value);
    k.Some? && Undoes(digest, plan[k.value], answers[k.value], e)
  }

  ghost predicate AreVerified(digest: Content -> string, plan: seq<Entry>, answers: seq<Content>) {
    |answers| == |plan| && forall k :: 0 <= k < |plan| ==> IsVerified(digest, plan[k], answers[k])
  }

  /** The answers pass the size and checksum tests of every download. */
  ghost predicate AreAcceptable(digest: Content -> string, plan: seq<Entry>, answers: seq<Content>) {
    |answers| == |plan| && forall k :: 0 <= k < |plan| ==> IsAcceptable(digest, plan[k], answers[k])
  }

  /** What one download does to the need for an entry whose target it touches. */
  lemma UndoesIff(digest: Content -> string, files: Files, f: Entry, content: Content, e: Entry)
    requires e.target.Some? && f.target.Some? && IsVerified(digest, f, content)
    requires e.target.value in Companions(f.target.value)
    ensures IsNeeded(digest, Patched(files, f.target.value, content), e) <==> Undoes(digest, f, content, e)
  {
  }

  /** After the downloads an entry is needed exactly when the last one to touch its target undoes it, or none does and it was. */
  lemma {:induction false} NeededAfterIff(digest: Content -> string, files: Files, plan: seq<Entry>, answers: seq<Content>, e: Entry)
    requires HaveTargets(plan) && AreVerified(digest, plan, answers) && e.target.Some?
    ensures IsNeeded(digest, Applied(files, plan, answers), e) <==>
            if LastTouch(plan, e.target.value).Some? then IsUndone(digest, plan, answers, e) else IsNeeded(digest, files, e)
    decreases |plan|
  {
    if plan != [] {
      var n := |plan| - 1;
      var before := Applied(files, plan[..n], answers[..n]);
      if e.target.value in Companions(plan[n].target.value) {
        UndoesIff(digest, before, plan[n], answers[n], e);
      } else {
        NeededAfterIff(digest, files, plan[..n], answers[..n], e);
      }
    }
  }

  lemma {:induction false} PlannedIsTouched(plan: seq<Entry>, e: Entry)
    requires HaveTargets(plan) && e in plan
    ensures LastTouch(plan, e.target.value).Some?
    decreases |plan|
  {
    var n := |plan| - 1;
    if e.target.value !in Companions(plan[n].target.value) {
      assert plan == plan[..n] + [plan[n]];
      PlannedIsTouched(plan[..n], e);
    }
  }

  /** An entry that was planned or satisfied is needed again exactly when it was undone. */
  lemma NeededAgainIff(digest: Content -> string, files: Files, plan: seq<Entry>, answers: seq<Content>, e: Entry)
    requires HaveTargets(plan) && AreVerified(digest, plan, answers) && e.target.Some?
    requires e in plan || !IsNeeded(digest, files, e)
    ensures IsNeeded(digest, Applied(files, plan, answers), e) <==> IsUndone(digest, plan, answers, e)
  {
    NeededAfterIff(digest, files, plan, answers, e);
    if e in plan {
      PlannedIsTouched(plan, e);
    }
  }

  /** A new plan after a successful apply is empty. */
  ghost predicate Converges(digest: Content -> string, files: Files, manifest: seq<Entry>, answers: seq<Content>)
    requires HaveTargets(manifest) && HaveTargets(Selected(digest, files, manifest))
    requires |answers| == |Selected(digest, files, manifest)|
  {
    Selected(digest, Applied(files, Selected(digest, files, manifest), answers), manifest) == []
  }

  /**
   Patching converges exactly when no entry of the manifest was undone by the last
   download that touched its target.
   */
  lemma ConvergesIff(digest: Content -> string, files: Files, manifest: seq<Entry>, answers: seq<Content>)
    requires HaveTargets(manifest) && AreVerified(digest, Selected(digest, files, manifest), answers)
    ensures HaveTargets(Selected(digest, files, manifest))
    ensures Converges(digest, files, manifest, answers)
       <==> forall e :: e in manifest ==> !IsUndone(digest, Selected(digest, files, manifest), answers, e)
  {
    var plan := Selected(digest, files, manifest);
    SelectedMembers(digest, files, manifest);
    PlannedTargets(plan, manifest);
    var after := Applied(files, plan, answers);
    forall e | e in manifest
      ensures IsNeeded(digest, after, e) <==> IsUndone(digest, plan, answers, e)
    {
      NeededAgainIff(digest, files, plan, answers, e);
    }
    SelectedMembers(digest, after, manifest);
    NoneIffEmpty(Selected(digest, after, manifest));
  }

  /**
   Some acceptable content for `f` would leave `e` to be done again.  Nothing but the
   two entries decides.
   */
  predicate MayUndo(f: Entry, e: Entry)
    requires e.target.Some? && f.target.Some?
  {
    e.target.value != f.target.value || (!IsBlank(e.md5) && (IsBlank(f.md5) || !EqualFold(f.md5, e.md5)))
  }

  predicate MayBeUndone(plan: seq<Entry>, e: Entry)
    requires HaveTargets(plan) && e.target.Some?
  {
    var k := LastTouch(plan, e.target.value);
    k.Some? && MayUndo(plan[k.value], e)
  }

  /** The digest tells some contents of that length apart. */
  ghost predicate IsDiscerningAt(digest: Content -> string, n: nat) {
    exists a: Content, b: Content :: |a| == |b| == n && !EqualFold(digest(a), digest(b))
  }

  ghost predicate IsDiscerning(digest: Content -> string) {
    forall n: nat :: n > 0 ==> IsDiscerningAt(digest, n)
  }

  /** Some answers pass every test. */
  ghost predicate CanBeServed(digest: Content -> string, plan: seq<Entry>) {
    exists answers: seq<Content> :: AreAcceptable(digest, plan, answers)
  }

  lemma SomeOtherContent(digest: Content -> string, f: Entry, md5: string) returns (content: Content)
    requires IsDiscerning(digest) && IsBlank(f.md5)
    ensures IsAcceptable(digest, f, content) && !EqualFold(digest(content), md5)
  {
    var n: nat := if f.size > 0 then f.size else 1;
    assert IsDiscerningAt(digest, n);
    var a: Content, b: Content :| |a| == |b| == n && !EqualFold(digest(a), digest(b));
    content := if EqualFold(digest(a), md5) then b else a;
  }

  /** Some acceptable answers undo an entry that may be undone. */
  lemma UndoingAnswers(digest: Content -> string, plan: seq<Entry>, answers: seq<Content>, e: Entry)
    returns (others: seq<Content>)
    requires HaveTargets(plan) && e.target.Some? && IsDiscerning(digest)
    requires AreAcceptable(digest, plan, answers) && MayBeUndone(plan, e)
    ensures AreAcceptable(digest, plan, others) && IsUndone(digest, plan, others, e)
  {
    var k := LastTouch(plan, e.target.value).value;
    others := answers;
    if e.target == plan[k].target && IsBlank(plan[k].md5) {
      var content := SomeOtherContent(digest, plan[k], e.md5);
      others := answers[k := content];
    }
  }

  lemma UndoneMayBe(digest: Content -> string, plan: seq<Entry>, answers: seq<Content>, e: Entry)
    requires HaveTargets(plan) && AreVerified(digest, plan, answers) && e.target.Some?
    requires IsUndone(digest, plan, answers, e)
    ensures MayBeUndone(plan, e)
  {
  }

  predicate NoneMayBeUndone(plan: seq<Entry>, manifest: seq<Entry>)
    requires HaveTargets(plan) && HaveTargets(manifest)
  {
    forall e :: e in manifest ==> !MayBeUndone(plan, e)
  }

  ghost predicate AlwaysConverges(digest: Content -> string, files: Files, manifest: seq<Entry>)
    requires HaveTargets(manifest) && HaveTargets(Selected(digest, files, manifest))
  {
    forall answers: seq<Content> :: AreAcceptable(digest, Selected(digest, files, manifest), answers) ==>
      Converges(digest, files, manifest, answers)
  }

  /**
   What can be said before any download: patching converges whatever acceptable
   contents the server gives when no entry of the manifest may be undone.  With a
   digest that tells contents apart it does so only then, or when no contents are
   acceptable.
   */
  lemma AlwaysConvergesIff(digest: Content -> string, files: Files, manifest: seq<Entry>)
    requires HaveTargets(manifest)
    ensures HaveTargets(Selected(digest, files, manifest))
    ensures NoneMayBeUndone(Selected(digest, files, manifest), manifest) ==> AlwaysConverges(digest, files, manifest)
    ensures IsDiscerning(digest) ==>
              (AlwaysConverges(digest, files, manifest)
          <==> NoneMayBeUndone(Selected(digest, files, manifest), manifest) || !CanBeServed(digest, Selected(digest, files, manifest)))
  {
    var plan := Selected(digest, files, manifest);
    SelectedMembers(digest, files, manifest);
    PlannedTargets(plan, manifest);
    if NoneMayBeUndone(plan, manifest) {
      forall answers | AreAcceptable(digest, plan, answers)
        ensures Converges(digest, files, manifest, answers)
      {
        NothingUndone(digest, files, manifest, answers);
      }
    } else if answers: seq<Content> :| IsDiscerning(digest) && AreAcceptable(digest, plan, answers) {
      var e :| e in manifest && MayBeUndone(plan, e);
      var others := UndoingAnswers(digest, plan, answers, e);
      ConvergesIff(digest, files, manifest, others);
    }
  }

  lemma NothingUndone(digest: Content -> string, files: Files, manifest: seq<Entry>, answers: seq<Content>)
    requires HaveTargets(manifest) && HaveTargets(Selected(digest, files, manifest))
    requires AreVerified(digest, Selected(digest, files, manifest), answers)
    requires NoneMayBeUndone(Selected(digest, files, manifest), manifest)
    ensures Converges(digest, files, manifest, answers)
  {
    forall e | e in manifest
      ensures !IsUndone(digest, Selected(digest, files, manifest), answers, e)
    {
      if IsUndone(digest, Selected(digest, files, manifest), answers, e) {
        UndoneMayBe(digest, Selected(digest, files, manifest), answers, e);
      }
    }
    ConvergesIff(digest, files, manifest, answers);
  }

  /** Entries that keep apart stay satisfied once they are, or once they have been downloaded. */
  lemma AppliedSatisfies(digest: Content -> string, files: Files, plan: seq<Entry>, answers: seq<Content>,
                         manifest: seq<Entry>, e: Entry)
    requires AreApart(manifest) && e in manifest && forall p :: p in plan ==> p in manifest
    requires AreVerified(digest, plan, answers)
    ensures HaveTargets(plan)
    ensures e in plan || !IsNeeded(digest, files, e) ==> !IsNeeded(digest, Applied(files, plan, answers), e)
  {
    PlannedTargets(plan, manifest);
    ApartIsNotUndone(digest, plan, answers, manifest, e);
    if e in plan || !IsNeeded(digest, files, e) {
      NeededAgainIff(digest, files, plan, answers, e);
    }
  }

  /** In particular it converges when no entry's files are another's. */
  lemma PatchingConverges(digest: Content -> string, files: Files, manifest: seq<Entry>, answers: seq<Content>)
    requires AreApart(manifest) && AreVerified(digest, Selected(digest, files, manifest), answers)
    ensures HaveTargets(Selected(digest, files, manifest))
    ensures Converges(digest, files, manifest, answers)
  {
    var plan := Selected(digest, files, manifest);
    ConvergesIff(digest, files, manifest, answers);
    SelectedMembers(digest, files, manifest);
    forall e | e in manifest
      ensures !IsUndone(digest, plan, answers, e)
    {
      ApartIsNotUndone(digest, plan, answers, manifest, e);
    }
  }

  lemma ApartIsNotUndone(digest: Content -> string, plan: seq<Entry>, answers: seq<Content>, manifest: seq<Entry>, e: Entry)
    requires AreApart(manifest) && e in manifest && HaveTargets(plan) && |answers| == |plan|
    requires forall p :: p in plan ==> p in manifest
    ensures !IsUndone(digest, plan, answers, e)
  {
    var k := LastTouch(plan, e.target.value);
    if k.Some? && plan[k.value] != e {
      assert plan[k.value] in plan;
      MembersApart(manifest, e, plan[k.value]);
    }
  }

  lemma FirstIsMember<T>(s: seq<T>)
    requires s != []
    ensures s[0] in s
  {
  }

  lemma NoneIffEmpty<T>(s: seq<T>)
    ensures s == [] <==> forall x :: x !in s
  {
    if s != [] {
      FirstIsMember(s);
    }
  }

  /** Build, apply, build again; `serve(k)` is what the server gives for the `k`-th download. */
  method PatchTwice(disk: Disk, digest: Content -> string, manifest: seq<Entry>, serve: nat -> Option<Content>)
    returns (ok: bool, again: seq<Entry>, ghost plan: seq<Entry>, ghost contents: seq<Content>)
    modifies disk
    ensures old(disk.faults) == [] ==>
              (ok <==> HaveTargets(manifest)
                       && var wanted := Selected(digest, old(disk.files), manifest); CanApply(digest, wanted, seq(|wanted|, serve)))
    ensures ok ==> HaveTargets(manifest) && HaveTargets(plan) && AreAcceptable(digest, plan, contents)
    ensures ok ==> plan == Selected(digest, old(disk.files), manifest)
    ensures ok ==> (again == [] <==> forall e :: e in manifest ==> !IsUndone(digest, plan, contents, e))
  {
    ghost var before := disk.files;
    var first, downloadByte := Build(digest, disk.files, manifest);
    if first.None? { return false, [], [], []; }
    var answers := seq(|first.value|, serve);
    var progress;
    ok, progress := Apply(disk, digest, first.value, downloadByte, answers);
    if !ok { return false, [], [], []; }
    plan, contents := first.value, Given(answers);
    assert plan[..|plan|] == plan && answers[..|plan|] == answers;
    ConvergesIff(digest, before, manifest, contents);
    var second, _ := Build(digest, disk.files, manifest);
    again := second.value;
  }

  /** A manifest that names another entry's backup as a file of its own does not converge. */
  lemma OverlapDoesNotConverge(digest: Content -> string)
    ensures var first, second := Entry(Some("a.patching.previous"), "", 0), Entry(Some("a"), "", 0);
            && Selected(digest, map[], [first, second]) == [first, second]
            && Selected(digest, Applied(map[], [first, second], ["x", "y"]), [first, second]) == [first]
  {
    var first, second := Entry(Some("a.patching.previous"), "", 0), Entry(Some("a"), "", 0);
    assert "a" + ".patching.previous" == "a.patching.previous";
    PathsDiffer("a");
    assert [first, second][..1] == [first] && [first][..0] == [];
    assert ["x", "y"][..1] == ["x"] && ["x"][..0] == [];
    var one := Patched(map[], Backup("a"), "x");
    assert Applied(map[], [first], ["x"]) == one;
    var two := Patched(one, "a", "y");
    assert Applied(map[], [first, second], ["x", "y"]) == two;
    assert Backup("a") !in two && "a" in two;
    SelectedPair(digest, map[], first, second);
    SelectedPair(digest, two, first, second);
  }

  lemma SelectedPair(digest: Content -> string, files: Files, first: Entry, second: Entry)
    requires first.target.Some? && second.target.Some?
    ensures Selected(digest, files, [first, second])
         == (if IsNeeded(digest, files, first) then [first] else []) + (if IsNeeded(digest, files, second) then [second] else [])
  {
    assert [first, second][..1] == [first] && [first][..0] == [];
    assert Selected(digest, files, []) == [];
  }
}
