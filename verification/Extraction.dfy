/**
 The extraction protocol. Every run may be cut at any write, and runs follow each other
 until one finds the marker. A disk gives one answer to each attempt to open or write a
 file; when no answer is left, the run is cut there.
 */
module Extraction {
  import opened Words
  import opened Archive

  type Files = map<Bytes, Bytes>

  /** The files, and the answers the disk will give to the next operations. */
  datatype Disk = Disk(files: Files, answers: seq<int>)

  datatype Ending = Returned(code: int) | Cut

  function Min(a: int, b: int): int { if a < b then a else b }

  /** The write loop: each accepted write moves a piece of the data that is left to the end of the file. */
  function Pour(d: Disk, path: Bytes, left: Bytes): (Disk, Ending)
    requires path in d.files
    decreases |d.answers|
  {
    if left == [] then (d, Returned(0))
    else if d.answers == [] then (d, Cut)
    else
      var wrote, rest := d.answers[0], d.answers[1..];
      if wrote <= 0 then (Disk(d.files, rest), Returned(-1))
      else
        var n := Min(wrote, |left|);
        Pour(Disk(d.files[path := d.files[path] + left[..n]], rest), path, left[n..])
  }

  /** write_file: create or truncate, then write. */
  function WriteFile(d: Disk, path: Bytes, data: Bytes): (Disk, Ending) {
    if d.answers == [] then (d, Cut)
    else if d.answers[0] < 0 then (Disk(d.files, d.answers[1..]), Returned(d.answers[0]))
    else Pour(Disk(d.files[path := []], d.answers[1..]), path, data)
  }

  /** The bytes the disk will accept before it refuses a write or gives no more answers. */
  function Taken(answers: seq<int>): nat {
    if answers == [] || answers[0] <= 0 then 0 else answers[0] + Taken(answers[1..])
  }

  lemma {:induction false} PrefixSplits(s: Bytes, k: nat, m: nat)
    requires k + m <= |s|
    ensures s[..k + m] == s[..k] + s[k..][..m]
  {
  }

  lemma {:induction false} PourWritesPrefix(d: Disk, path: Bytes, left: Bytes) returns (n: nat)
    requires path in d.files
    ensures n == Min(Taken(d.answers), |left|)
    ensures Pour(d, path, left).0.files == d.files[path := d.files[path] + left[..n]]
    ensures Pour(d, path, left).1 == Returned(0) <==> n == |left|
    ensures Pour(d, path, left).1.Returned? ==> Pour(d, path, left).1.code <= 0
    decreases |d.answers|
  {
    n := 0;
    assert d.files[path] + left[..0] == d.files[path];
    assert d.files == d.files[path := d.files[path]];
    if left != [] && d.answers != [] && d.answers[0] > 0 {
      var k := Min(d.answers[0], |left|);
      assert Taken(d.answers) == d.answers[0] + Taken(d.answers[1..]);
      var next := Disk(d.files[path := d.files[path] + left[..k]], d.answers[1..]);
      var m := PourWritesPrefix(next, path, left[k..]);
      n := k + m;
      PrefixSplits(left, k, m);
      assert next.files[path] + left[k..][..m] == d.files[path] + left[..n];
    }
  }

  /** Whatever the disk answers, a written file holds a prefix of the data, all of it exactly on success. */
  lemma WriteFileLeavesPrefix(d: Disk, path: Bytes, data: Bytes) returns (created: bool, n: nat)
    ensures created <==> d.answers != [] && d.answers[0] >= 0
    ensures n <= |data| && (created ==> n == Min(Taken(d.answers[1..]), |data|))
    ensures WriteFile(d, path, data).0.files == if created then d.files[path := data[..n]] else d.files
    ensures WriteFile(d, path, data).1 == Returned(0) <==> created && n == |data|
    ensures WriteFile(d, path, data).1.Returned? ==> WriteFile(d, path, data).1.code <= 0
    ensures !created && d.answers != [] ==> WriteFile(d, path, data).1 == Returned(d.answers[0])
  {
    created, n := false, 0;
    if d.answers != [] && d.answers[0] >= 0 {
      var empty := Disk(d.files[path := []], d.answers[1..]);
      created := true;
      n := PourWritesPrefix(empty, path, data);
      assert empty.files[path] + data[..n] == data[..n];
    }
  }

  // The specification of one run

  function Marker(): Bytes { Ascii("ux0:/data/CAUSTIC3/.demo_assets_322.ready") }

  predicate SizeMatches(files: Files, path: Bytes, size: nat) {
    path in files && |files[path]| == size
  }

  /** What a run does for one entry, and how the run ends there if it does. */
  function Turn(step: Step, d: Disk): (Disk, Option<Ending>) {
    match step
    case Bad => (d, Some(Returned(-1)))
    case Skip => (d, None)
    case Asset(path, size, payload) =>
      if SizeMatches(d.files, path, size) then (d, None)
      else if payload == None then (d, Some(Returned(-1)))
      else
        match WriteFile(d, path, payload.value)
        case (after, Cut) => (after, Some(Cut))
        case (after, Returned(code)) => (after, if code < 0 then Some(Returned(-1)) else None)
  }

  /** The rest of a run from entry k: the remaining entries, then the marker. */
  function Walk(steps: seq<Step>, k: nat, d: Disk): (Disk, Ending)
    requires k <= |steps|
    decreases |steps| - k
  {
    if k == |steps| then
      match WriteFile(d, Marker(), Ascii("ok\n"))
      case (after, Cut) => (after, Cut)
      case (after, Returned(code)) => (after, Returned(if code < 0 then -1 else 0))
    else match Turn(steps[k], d)
      case (after, Some(ending)) => (after, ending)
      case (after, None) => Walk(steps, k + 1, after)
  }

  function Session(plan: Plan, d: Disk): (Disk, Ending) {
    if Marker() in d.files then (d, Returned(0))
    else if plan.Unreadable? then (d, Returned(-1))
    else Walk(plan.steps, 0, d)
  }

  /** The files after any number of runs, each with its own answers from the disk. */
  function AfterRuns(plan: Plan, files: Files, runs: seq<seq<int>>): Files
    decreases |runs|
  {
    if runs == [] then files
    else Session(plan, Disk(AfterRuns(plan, files, runs[..|runs| - 1]), runs[|runs| - 1])).0.files
  }

  // The invariant of the protocol

  /** An asset is absent, a prefix of its content, or still the file of another size that was there first. */
  predicate Fine(files: Files, first: Files, step: Step) {
    step.Asset? && step.path in files ==>
      || (step.payload.Some? && files[step.path] <= step.payload.value)
      || (step.path in first && files[step.path] == first[step.path] && |first[step.path]| != step.size)
  }

  /** The entry needs no more work. */
  predicate Complete(files: Files, step: Step) {
    match step
    case Bad => false
    case Skip => true
    case Asset(path, size, payload) => payload.Some? && path in files && files[path] == payload.value
  }

  /** Content has the size its header gives, no two entries write the same file, and none writes the marker. */
  predicate WellFormed(steps: seq<Step>) {
    && (forall i | 0 <= i < |steps| && steps[i].Asset? && steps[i].payload.Some? ::
          |steps[i].payload.value| == steps[i].size)
    && (forall i, j | 0 <= i < j < |steps| && steps[i].Asset? && steps[j].Asset? :: steps[i].path != steps[j].path)
    && (forall i | 0 <= i < |steps| && steps[i].Asset? :: steps[i].path != Marker())
  }

  /** No marker yet, and no foreign file that passes for an extracted one. */
  predicate Fresh(files: Files, steps: seq<Step>) {
    && Marker() !in files
    && forall i | 0 <= i < |steps| && steps[i].Asset? && SizeMatches(files, steps[i].path, steps[i].size) ::
         Complete(files, steps[i])
  }

  ghost predicate IsOutput(steps: seq<Step>, path: Bytes) {
    exists i :: 0 <= i < |steps| && steps[i].Asset? && steps[i].path == path
  }

  ghost predicate OthersKept(files: Files, first: Files, steps: seq<Step>) {
    forall path | path != Marker() && !IsOutput(steps, path) ::
      (path in files <==> path in first) && (path in files ==> files[path] == first[path])
  }

  ghost predicate Sound(files: Files, first: Files, steps: seq<Step>) {
    && (forall i | 0 <= i < |steps| :: Fine(files, first, steps[i]))
    && (Marker() in files ==> forall i | 0 <= i < |steps| :: Complete(files, steps[i]))
    && OthersKept(files, first, steps)
  }

  /** An asset whose file has the right size is complete: a proper prefix and a foreign file both have another size. */
  lemma RightSizeIsComplete(files: Files, first: Files, step: Step)
    requires Fine(files, first, step) && step.Asset? && SizeMatches(files, step.path, step.size)
    requires step.payload.Some? ==> |step.payload.value| == step.size
    ensures Complete(files, step)
  {
  }

  lemma FreshIsSound(files: Files, steps: seq<Step>)
    requires Fresh(files, steps)
    ensures Sound(files, files, steps)
  {
  }

  /** The walk has reached entry k without a marker, and every entry before k is complete. */
  ghost predicate Reached(files: Files, first: Files, steps: seq<Step>, k: nat) {
    && Marker() !in files
    && Sound(files, first, steps)
    && forall i | 0 <= i < k && i < |steps| :: Complete(files, steps[i])
  }

  /** Writing a prefix of one asset disturbs nothing else. */
  lemma AssetWriteIsSound(files: Files, first: Files, steps: seq<Step>, k: nat, n: nat)
    requires WellFormed(steps) && k < |steps| && Reached(files, first, steps, k)
    requires steps[k].Asset? && steps[k].payload.Some? && n <= |steps[k].payload.value|
    ensures Reached(files[steps[k].path := steps[k].payload.value[..n]], first, steps, k)
  {
  }

  /** Writing the marker, once every entry is complete. */
  lemma MarkerWriteIsSound(files: Files, first: Files, steps: seq<Step>, content: Bytes)
    requires WellFormed(steps) && Reached(files, first, steps, |steps|)
    ensures Sound(files[Marker() := content], first, steps)
  {
  }

  /** Entries that are complete stay complete. */
  ghost predicate KeepsComplete(before: Files, after: Files, steps: seq<Step>) {
    forall i | 0 <= i < |steps| && Complete(before, steps[i]) :: Complete(after, steps[i])
  }

  lemma AssetWriteKeepsComplete(files: Files, steps: seq<Step>, k: nat, content: Bytes)
    requires WellFormed(steps) && k < |steps| && steps[k].Asset? && !SizeMatches(files, steps[k].path, steps[k].size)
    ensures KeepsComplete(files, files[steps[k].path := content], steps)
  {
  }

  lemma {:induction false} WalkIsSound(steps: seq<Step>, k: nat, d: Disk, first: Files)
    requires WellFormed(steps) && k <= |steps| && Reached(d.files, first, steps, k)
    ensures Sound(Walk(steps, k, d).0.files, first, steps)
    ensures KeepsComplete(d.files, Walk(steps, k, d).0.files, steps)
    ensures Walk(steps, k, d).1 == Returned(0) ==> Marker() in Walk(steps, k, d).0.files
    decreases |steps| - k
  {
    if k == |steps| {
      var created, n := WriteFileLeavesPrefix(d, Marker(), Ascii("ok\n"));
      if created {
        MarkerWriteIsSound(d.files, first, steps, Ascii("ok\n")[..n]);
      }
    } else if steps[k].Asset? {
      WalkAssetIsSound(steps, k, d, first);
    } else if steps[k].Skip? {
      WalkIsSound(steps, k + 1, d, first);
    }
  }

  /** Whatever becomes of the write of an asset, the state stays sound, and a whole write completes its entry. */
  lemma {:induction false} AssetWritten(steps: seq<Step>, k: nat, d: Disk, first: Files)
    requires WellFormed(steps) && k < |steps| && Reached(d.files, first, steps, k) && steps[k].Asset?
    requires !SizeMatches(d.files, steps[k].path, steps[k].size) && steps[k].payload.Some?
    ensures var (after, ending) := WriteFile(d, steps[k].path, steps[k].payload.value);
      && Sound(after.files, first, steps) && KeepsComplete(d.files, after.files, steps)
      && (ending.Returned? ==> ending.code <= 0)
      && (ending == Returned(0) ==> Reached(after.files, first, steps, k + 1))
  {
    var path, payload := steps[k].path, steps[k].payload.value;
    var created, n := WriteFileLeavesPrefix(d, path, payload);
    if created {
      AssetWriteIsSound(d.files, first, steps, k, n);
      AssetWriteKeepsComplete(d.files, steps, k, payload[..n]);
    }
  }

  lemma {:induction false} WalkAssetIsSound(steps: seq<Step>, k: nat, d: Disk, first: Files)
    requires WellFormed(steps) && k < |steps| && Reached(d.files, first, steps, k) && steps[k].Asset?
    ensures Sound(Walk(steps, k, d).0.files, first, steps)
    ensures KeepsComplete(d.files, Walk(steps, k, d).0.files, steps)
    ensures Walk(steps, k, d).1 == Returned(0) ==> Marker() in Walk(steps, k, d).0.files
    decreases |steps| - k, 0
  {
    var path, payload := steps[k].path, steps[k].payload;
    if SizeMatches(d.files, path, steps[k].size) {
      RightSizeIsComplete(d.files, first, steps[k]);
      WalkIsSound(steps, k + 1, d, first);
      assert Walk(steps, k, d) == Walk(steps, k + 1, d);
    } else if payload.Some? {
      AssetWritten(steps, k, d, first);
      var (after, ending) := WriteFile(d, path, payload.value);
      if ending == Returned(0) {
        WalkIsSound(steps, k + 1, after, first);
        KeepsCompleteOnward(d.files, after.files, Walk(steps, k + 1, after).0.files, steps);
        assert Walk(steps, k, d) == Walk(steps, k + 1, after);
      } else {
        assert Walk(steps, k, d).0 == after && Walk(steps, k, d).1 != Returned(0);
      }
    }
  }

  lemma {:induction false} KeepsCompleteOnward(before: Files, now: Files, after: Files, steps: seq<Step>)
    requires KeepsComplete(before, now, steps) && KeepsComplete(now, after, steps)
    ensures KeepsComplete(before, after, steps)
  {
  }

  /** A run leaves a sound state sound, undoes no entry, and reports success only with the marker in place. */
  lemma SessionIsSound(plan: Plan, d: Disk, first: Files)
    requires plan.Steps? && WellFormed(plan.steps) && Sound(d.files, first, plan.steps)
    ensures Sound(Session(plan, d).0.files, first, plan.steps)
    ensures KeepsComplete(d.files, Session(plan, d).0.files, plan.steps)
    ensures Session(plan, d).1 == Returned(0) ==> Marker() in Session(plan, d).0.files
  {
    if Marker() !in d.files {
      WalkIsSound(plan.steps, 0, d, first);
    }
  }

  /**
   After any number of runs, each cut anywhere: every asset is absent, a prefix of its
   content, or the file of another size that was there first; the marker is there only
   when every entry is complete; no other file has changed.
   */
  lemma {:induction false} RunsAreSound(plan: Plan, files: Files, runs: seq<seq<int>>)
    requires plan.Steps? && WellFormed(plan.steps) && Fresh(files, plan.steps)
    ensures Sound(AfterRuns(plan, files, runs), files, plan.steps)
    decreases |runs|
  {
    if runs == [] {
      FreshIsSound(files, plan.steps);
    } else {
      var front := runs[..|runs| - 1];
      RunsAreSound(plan, files, front);
      SessionIsSound(plan, Disk(AfterRuns(plan, files, front), runs[|runs| - 1]), files);
    }
  }

  // A disk that does not fail

  predicate Willing(answers: seq<int>, work: nat) {
    |answers| >= work && forall i | 0 <= i < |answers| :: answers[i] > 0
  }

  /** Enough operations for the data: one to open the file, at most one for each byte. */
  lemma {:induction false} PourSucceeds(d: Disk, path: Bytes, left: Bytes, spare: nat)
    requires path in d.files && Willing(d.answers, |left| + spare)
    ensures Pour(d, path, left).1 == Returned(0) && Willing(Pour(d, path, left).0.answers, spare)
    decreases |d.answers|
  {
    if left != [] {
      var n := Min(d.answers[0], |left|);
      PourSucceeds(Disk(d.files[path := d.files[path] + left[..n]], d.answers[1..]), path, left[n..], spare);
    }
  }

  lemma WriteFileSucceeds(d: Disk, path: Bytes, data: Bytes, spare: nat)
    requires Willing(d.answers, 1 + |data| + spare)
    ensures WriteFile(d, path, data).1 == Returned(0) && Willing(WriteFile(d, path, data).0.answers, spare)
  {
    PourSucceeds(Disk(d.files[path := []], d.answers[1..]), path, data, spare);
  }

  predicate Extractable(step: Step) {
    step.Skip? || (step.Asset? && step.payload.Some?)
  }

  /** The operations that entries from k on and the marker can take. */
  function Work(steps: seq<Step>, k: nat): nat
    requires k <= |steps|
    decreases |steps| - k
  {
    if k == |steps| then 4
    else Work(steps, k + 1) + if steps[k].Asset? && steps[k].payload.Some? then 1 + |steps[k].payload.value| else 0
  }

  lemma {:induction false} WalkCompletes(steps: seq<Step>, k: nat, d: Disk)
    requires k <= |steps| && Willing(d.answers, Work(steps, k))
    requires forall i | 0 <= i < |steps| :: Extractable(steps[i])
    ensures Walk(steps, k, d).1 == Returned(0)
    decreases |steps| - k
  {
    if k == |steps| {
      WriteFileSucceeds(d, Marker(), Ascii("ok\n"), 0);
    } else {
      assert Extractable(steps[k]);
      if steps[k].Asset? && !SizeMatches(d.files, steps[k].path, steps[k].size) {
        WriteFileSucceeds(d, steps[k].path, steps[k].payload.value, Work(steps, k + 1));
      }
      WalkCompletes(steps, k + 1, Turn(steps[k], d).0);
    }
  }

  /** A walk that succeeds has written the marker. */
  lemma {:induction false} WalkMarks(steps: seq<Step>, k: nat, d: Disk)
    requires k <= |steps| && Walk(steps, k, d).1 == Returned(0)
    ensures var files := Walk(steps, k, d).0.files; Marker() in files && files[Marker()] == [0x6F, 0x6B, 0x0A]
    decreases |steps| - k
  {
    if k == |steps| {
      var created, n := WriteFileLeavesPrefix(d, Marker(), Ascii("ok\n"));
      assert Ascii("ok\n") == [0x6F, 0x6B, 0x0A];
    } else {
      WalkMarks(steps, k + 1, Turn(steps[k], d).0);
    }
  }

  /** Once the marker is there, no run changes any file. */
  lemma {:induction false} MarkerEndsExtraction(plan: Plan, files: Files, runs: seq<seq<int>>)
    requires Marker() in files
    ensures AfterRuns(plan, files, runs) == files
    decreases |runs|
  {
    if runs != [] {
      MarkerEndsExtraction(plan, files, runs[..|runs| - 1]);
    }
  }

  /**
   A run that is not cut returns 0 or -1: at once 0 if the marker is there, and else 0 only
   for plans in which every header can be read.
   */
  lemma {:induction false} SessionEnds(plan: Plan, d: Disk)
    ensures Session(plan, d).1 in {Cut, Returned(0), Returned(-1)}
    ensures Marker() in d.files ==> Session(plan, d) == (d, Returned(0))
    ensures Marker() !in d.files && Session(plan, d).1 == Returned(0) ==> plan.Steps? && Bad !in plan.steps
  {
    if Marker() !in d.files && plan.Steps? {
      WalkEnds(plan.steps, 0, d);
    }
  }

  lemma {:induction false} WalkEnds(steps: seq<Step>, k: nat, d: Disk)
    requires k <= |steps|
    ensures Walk(steps, k, d).1 in {Cut, Returned(0), Returned(-1)}
    ensures Walk(steps, k, d).1 == Returned(0) ==> forall i | k <= i < |steps| :: steps[i] != Bad
    decreases |steps| - k
  {
    if k < |steps| {
      WalkEnds(steps, k + 1, Turn(steps[k], d).0);
    }
  }

  /** On a willing disk a plan with a header that cannot be read fails. */
  lemma {:induction false} BadHeaderFails(steps: seq<Step>, k: nat, d: Disk)
    requires k <= |steps| && Willing(d.answers, Work(steps, k)) && exists i | k <= i < |steps| :: steps[i] == Bad
    ensures Walk(steps, k, d).1 == Returned(-1)
    decreases |steps| - k
  {
    if steps[k].Asset? && !SizeMatches(d.files, steps[k].path, steps[k].size) && steps[k].payload.Some? {
      WriteFileSucceeds(d, steps[k].path, steps[k].payload.value, Work(steps, k + 1));
    }
    if steps[k] != Bad {
      BadHeaderFails(steps, k + 1, Turn(steps[k], d).0);
    }
  }

  /** After any interrupted runs, one run on a willing disk completes the extraction of an extractable archive. */
  lemma NextRunCompletes(plan: Plan, files: Files, runs: seq<seq<int>>, answers: seq<int>)
    requires plan.Steps? && WellFormed(plan.steps) && Fresh(files, plan.steps)
    requires forall i | 0 <= i < |plan.steps| :: Extractable(plan.steps[i])
    requires Willing(answers, Work(plan.steps, 0))
    ensures var after := AfterRuns(plan, files, runs + [answers]);
      Marker() in after && forall i | 0 <= i < |plan.steps| :: Complete(after, plan.steps[i])
  {
    var d := Disk(AfterRuns(plan, files, runs), answers);
    assert (runs + [answers])[..|runs|] == runs;
    RunsAreSound(plan, files, runs);
    RunsAreSound(plan, files, runs + [answers]);
    SessionIsSound(plan, d, files);
    if Marker() !in d.files {
      WalkCompletes(plan.steps, 0, d);
    }
  }

  /** Outside an archive that names a file twice, the plan of an APK is well formed. */
  lemma PlanIsWellFormed(apk: Bytes, destination: Bytes, codec: Codec)
    requires PlanOf(apk, destination, codec).Steps? && !(destination <= Marker())
    requires var steps := PlanOf(apk, destination, codec).steps;
      forall i, j | 0 <= i < j < |steps| && steps[i].Asset? && steps[j].Asset? :: steps[i].path != steps[j].path
    ensures WellFormed(PlanOf(apk, destination, codec).steps)
  {
  }
}
