/**
 * The loop of the request handler `index` (lines 84-113 of app.py): each
 * upload in turn is validated, stored, dispatched, extracted and written,
 * and the first empty or refused file name ends the request.
 */
module Batch {
  import opened Wrappers
  import opened FileNames
  import opened Extraction
  import opened Writer
  import opened Dispatch
  import opened Sequences

  /** `app.config['UPLOAD_FOLDER']`, where uploads and outputs are both kept. */
  const UPLOAD_FOLDER := "uploads/"

  /**
   * One uploaded file: the name the client sent, the name `secure_filename`
   * makes of it, and what the libraries report when reading the stored copy.
   */
  datatype Upload = Upload(filename: string, sanitized: string, sources: Sources)

  /** What the loop does to the file system, in order. */
  datatype Effect =
    | StoreUpload(path: string)                      // `file.save(file_path)`, line 95
    | SaveDocument(path: string, doc: seq<Block>)    // `save_to_word(...)`, line 111

  /** How the request ends. */
  datatype Outcome =
    | Completed              // the loop ran to its end
    | NoSelectedFile         // an empty file name, line 85
    | NotAllowed(filename: string)  // a refused file name, line 89
    | Crashed                // line 97 indexed a sanitised name without a dot

  /** The message the rendered page shows; a crash renders no page. */
  function Message(outcome: Outcome): (m: Option<string>)
    ensures m.None? <==> outcome == Crashed
  {
    match outcome
    case Completed => Some("Files processed successfully!")
    case NoSelectedFile => Some("No selected file")
    case NotAllowed(name) => Some("File type not allowed: " + name)
    case Crashed => None
  }

  /** The success message is shown exactly when the loop ran to its end. */
  lemma SuccessMessageIffCompleted(outcome: Outcome)
    ensures Message(outcome) == Some("Files processed successfully!") <==> outcome == Completed
  {
    if outcome.NotAllowed? {
      var m := "File type not allowed: " + outcome.filename;
      assert m[4] == ' ' && "Files processed successfully!"[4] == 's';
    }
  }

  /** Whether an upload lets the loop go on to the next one. */
  predicate Proceeds(u: Upload) {
    u.filename != "" && AllowedFile(u.filename) && '.' in u.sanitized
  }

  /** The output document saved for an upload whose sanitised extension selects an extractor. */
  function OutputFor(u: Upload, s: Strategy): Effect {
    SaveDocument(OutputPath(UPLOAD_FOLDER, u.sanitized), SaveToWord(ExtractText(s, u.sources)))
  }

  /** The output document saved for an upload whose sanitised name is itself accepted. */
  function SavedDocument(u: Upload): Effect
    requires AllowedFile(u.sanitized)
  {
    OutputFor(u, SelectStrategy(Extension(u.sanitized).value).value)
  }

  /** What one pass of the loop body does, and the outcome it ends the request with, if any. */
  datatype Step = Step(effects: seq<Effect>, stop: Option<Outcome>)

  function FileStep(u: Upload): (st: Step)
    ensures st.stop.None? <==> Proceeds(u)
    ensures st.stop != Some(Completed)
  {
    if u.filename == "" then Step([], Some(NoSelectedFile))
    else if !AllowedFile(u.filename) then Step([], Some(NotAllowed(u.filename)))
    else
      var stored := [StoreUpload(UPLOAD_FOLDER + u.sanitized)];
      match Extension(u.sanitized)
      case None => Step(stored, Some(Crashed))
      case Some(ext) =>
        match SelectStrategy(ext)
        case None => Step(stored, None)
        case Some(s) => Step(stored + [OutputFor(u, s)], None)
  }

  /** The step of each upload, in submission order. */
  function Steps(files: seq<Upload>): (steps: seq<Step>)
    ensures |steps| == |files|
    ensures forall k :: 0 <= k < |files| ==> steps[k] == FileStep(files[k])
  {
    seq(|files|, k requires 0 <= k < |files| => FileStep(files[k]))
  }

  /** The loop over the steps: each adds its effects, the first that stops ends the request. */
  function RunSteps(steps: seq<Step>): (r: (seq<Effect>, Outcome))
    ensures |r.0| <= |EffectsOf(steps)| && r.0 == EffectsOf(steps)[..|r.0|]
  {
    if steps == [] then ([], Completed)
    else if steps[0].stop.Some? then
      PrefixOfAppend(steps[0].effects, EffectsOf(steps[1..]), []);
      AppendEmpty(steps[0].effects, []);
      (steps[0].effects, steps[0].stop.value)
    else
      var rest := RunSteps(steps[1..]);
      PrefixOfAppend(steps[0].effects, EffectsOf(steps[1..]), rest.0);
      (steps[0].effects + rest.0, rest.1)
  }

  /**
   * The effects of the whole batch and how it ends: what is done to the file
   * system is, in order, the start of what the uploads' steps would do.
   */
  function Run(files: seq<Upload>): (r: (seq<Effect>, Outcome))
    ensures |r.0| <= |EffectsOf(Steps(files))| && r.0 == EffectsOf(Steps(files))[..|r.0|]
    ensures files == [] ==> r == ([], Completed)
  {
    RunSteps(Steps(files))
  }

  /** The effects of the steps, one after the other. */
  function EffectsOf(steps: seq<Step>): seq<Effect> {
    if steps == [] then [] else steps[0].effects + EffectsOf(steps[1..])
  }

  /** The loop of lines 84-113, with the early returns of lines 87, 91 and the IndexError of line 97. */
  method ProcessBatch(files: seq<Upload>) returns (effects: seq<Effect>, outcome: Outcome)
    ensures (effects, outcome) == Run(files)
  {
    ghost var steps := Steps(files);
    effects := [];
    EmptyAppend(effects, Run(files).0);
    assert steps[0..] == steps;
    for i := 0 to |files|
      invariant Run(files) == (effects + RunSteps(steps[i..]).0, RunSteps(steps[i..]).1)
    {
      var file := files[i];
      SuffixStep(steps, i);
      ghost var st := FileStep(file);
      ghost var rest := RunSteps(steps[i + 1..]);
      assert RunSteps(steps[i..]) == if st.stop.Some? then (st.effects, st.stop.value) else (st.effects + rest.0, rest.1);
      if file.filename == "" {
        outcome := NoSelectedFile;
        StopOutcome(file);
        AppendEmpty(effects, st.effects);
        return;
      }
      if !AllowedFile(file.filename) {
        outcome := NotAllowed(file.filename);
        StopOutcome(file);
        AppendEmpty(effects, st.effects);
        return;
      }
      var filename := file.sanitized;
      var filePath := UPLOAD_FOLDER + filename;
      var extension := Extension(filename);
      if extension.None? {
        assert !Proceeds(file);
        StopOutcome(file);
        assert st.effects == [StoreUpload(filePath)] && st.stop == Some(Crashed);
        effects := effects + [StoreUpload(filePath)];
        outcome := Crashed;
        return;
      }
      ProceedingStep(file);
      AppendAssociative(effects, st.effects, rest.0);
      ghost var before := effects;
      effects := effects + [StoreUpload(filePath)];
      var extractedText := ExtractStored(extension.value, file.sources);
      if extractedText.None? {
        AppendEmpty([StoreUpload(filePath)], []);
        continue;
      }
      var docxPath := OutputPath(UPLOAD_FOLDER, filename);
      AppendAssociative(before, [StoreUpload(filePath)], [SaveDocument(docxPath, SaveToWord(extractedText.value))]);
      effects := effects + [SaveDocument(docxPath, SaveToWord(extractedText.value))];
    }
    assert steps[|files|..] == [];
    AppendEmpty(effects, RunSteps(steps[|files|..]).0);
    outcome := Completed;
  }

  // ---------------------------------------------------------------------
  // The loop over steps
  // ---------------------------------------------------------------------

  lemma {:induction false} RunStepsCompletedIff(steps: seq<Step>)
    requires forall k :: 0 <= k < |steps| ==> steps[k].stop != Some(Completed)
    ensures RunSteps(steps).1 == Completed <==> forall k :: 0 <= k < |steps| ==> steps[k].stop.None?
    decreases |steps|
  {
    if steps != [] {
      var tail := steps[1..];
      assert forall k :: 0 <= k < |tail| ==> tail[k] == steps[k + 1];
      RunStepsCompletedIff(tail);
      if steps[0].stop.None? {
        assert (forall k :: 0 <= k < |tail| ==> tail[k].stop.None?) <==>
               (forall k :: 0 <= k < |steps| ==> steps[k].stop.None?);
      }
    }
  }

  lemma {:induction false} RunStepsCompleted(steps: seq<Step>)
    requires forall k :: 0 <= k < |steps| ==> steps[k].stop.None?
    ensures RunSteps(steps) == (EffectsOf(steps), Completed)
    decreases |steps|
  {
    if steps != [] {
      var tail := steps[1..];
      assert forall k :: 0 <= k < |tail| ==> tail[k] == steps[k + 1];
      RunStepsCompleted(tail);
    }
  }

  lemma {:induction false} RunStepsStops(steps: seq<Step>, k: nat)
    requires k < |steps|
    requires forall j :: 0 <= j < k ==> steps[j].stop.None?
    requires steps[k].stop.Some?
    ensures RunSteps(steps) == (EffectsOf(steps[..k]) + steps[k].effects, steps[k].stop.value)
    decreases k
  {
    if k > 0 {
      PrefixAndTail(steps, k);
      var tail := steps[1..];
      assert forall j :: 0 <= j < k - 1 ==> tail[j] == steps[j + 1];
      RunStepsStops(tail, k - 1);
      assert tail[k - 1] == steps[k];
      assert EffectsOf(steps[..k]) == steps[0].effects + EffectsOf(tail[..k - 1]);
      AppendAssociative(steps[0].effects, EffectsOf(tail[..k - 1]), steps[k].effects);
    } else {
      assert EffectsOf(steps[..0]) == [];
      EmptyAppend(EffectsOf(steps[..0]), steps[0].effects);
    }
  }

  lemma {:induction false} RunStepsUpTo(steps: seq<Step>, k: nat)
    requires k < |steps|
    requires steps[k].stop.Some?
    ensures RunSteps(steps) == RunSteps(steps[..k + 1])
    decreases k
  {
    PrefixAndTail(steps, k + 1);
    if k > 0 && steps[0].stop.None? {
      RunStepsUpTo(steps[1..], k - 1);
    }
  }

  lemma {:induction false} RunStepsIgnoresLater(steps: seq<Step>, later: seq<Step>)
    requires RunSteps(steps).1 != Completed
    ensures RunSteps(steps + later) == RunSteps(steps)
    decreases |steps|
  {
    TailOfAppend(steps, later);
    if steps[0].stop.None? {
      RunStepsIgnoresLater(steps[1..], later);
    }
  }

  lemma {:induction false} RunStepsAppend(steps: seq<Step>, later: seq<Step>)
    requires forall k :: 0 <= k < |steps| ==> steps[k].stop.None?
    ensures RunSteps(steps + later) == (EffectsOf(steps) + RunSteps(later).0, RunSteps(later).1)
    decreases |steps|
  {
    if steps == [] {
      EmptyAppend(steps, later);
      EmptyAppend([], RunSteps(later).0);
    } else {
      var tail := steps[1..];
      assert forall k :: 0 <= k < |tail| ==> tail[k] == steps[k + 1];
      TailOfAppend(steps, later);
      RunStepsAppend(tail, later);
      AppendAssociative(steps[0].effects, EffectsOf(tail), RunSteps(later).0);
    }
  }

  lemma StepsAppend(files: seq<Upload>, later: seq<Upload>)
    ensures Steps(files + later) == Steps(files) + Steps(later)
  {
    var whole := Steps(files + later);
    var parts := Steps(files) + Steps(later);
    forall k | 0 <= k < |whole|
      ensures whole[k] == parts[k]
    {
      if k < |files| {
        assert (files + later)[k] == files[k];
      } else {
        assert (files + later)[k] == later[k - |files|];
      }
    }
  }

  lemma StepsPrefix(files: seq<Upload>, k: nat)
    requires k <= |files|
    ensures Steps(files)[..k] == Steps(files[..k])
  {
    var whole := Steps(files);
    var prefix := Steps(files[..k]);
    forall j | 0 <= j < k
      ensures whole[..k][j] == prefix[j]
    {
      assert files[..k][j] == files[j];
    }
  }

  lemma {:induction false} EffectsOfPairs(steps: seq<Step>)
    requires forall k :: 0 <= k < |steps| ==> |steps[k].effects| == 2
    ensures |EffectsOf(steps)| == 2 * |steps|
    ensures forall k :: 0 <= k < |steps| ==>
      EffectsOf(steps)[2 * k] == steps[k].effects[0] && EffectsOf(steps)[2 * k + 1] == steps[k].effects[1]
    decreases |steps|
  {
    if steps != [] {
      var tail := steps[1..];
      assert forall k :: 0 <= k < |tail| ==> tail[k] == steps[k + 1];
      EffectsOfPairs(tail);
      var head, rest := steps[0].effects, EffectsOf(tail);
      assert EffectsOf(steps) == head + rest;
      assert |head| == 2;
      forall k | 0 < k < |steps|
        ensures (head + rest)[2 * k] == steps[k].effects[0]
        ensures (head + rest)[2 * k + 1] == steps[k].effects[1]
      {
        assert tail[k - 1] == steps[k];
        IndexAfterPrefix(head, rest, 2 * (k - 1));
        IndexAfterPrefix(head, rest, 2 * (k - 1) + 1);
      }
    }
  }

  // ---------------------------------------------------------------------
  // Properties of the batch
  // ---------------------------------------------------------------------

  /** The outcome names the reason the batch stopped. */
  lemma StopOutcome(u: Upload)
    requires !Proceeds(u)
    ensures u.filename == "" ==> FileStep(u) == Step([], Some(NoSelectedFile))
    ensures u.filename != "" && !AllowedFile(u.filename) ==> FileStep(u) == Step([], Some(NotAllowed(u.filename)))
    ensures u.filename != "" && AllowedFile(u.filename) ==>
      FileStep(u) == Step([StoreUpload(UPLOAD_FOLDER + u.sanitized)], Some(Crashed))
  {
  }

  /** An upload that proceeds is stored, then has its document saved when its sanitised extension is allowed. */
  lemma ProceedingStep(u: Upload)
    requires Proceeds(u)
    ensures Extension(u.sanitized).Some?
    ensures FileStep(u).stop == None
    ensures FileStep(u).effects ==
      [StoreUpload(UPLOAD_FOLDER + u.sanitized)] +
      (if Extension(u.sanitized).value in ALLOWED_EXTENSIONS
       then [OutputFor(u, SelectStrategy(Extension(u.sanitized).value).value)]
       else [])
  {
    var stored := [StoreUpload(UPLOAD_FOLDER + u.sanitized)];
    if Extension(u.sanitized).value !in ALLOWED_EXTENSIONS {
      AppendEmpty(stored, []);
    }
  }

  /**
   * The whole path of one upload that proceeds with an allowed sanitised
   * extension: it is stored, then the document saved for it holds the text of
   * the extractor that extension selects (`TextByExtension` names each one).
   */
  lemma ProceedingUploadSaved(u: Upload)
    requires Proceeds(u) && AllowedFile(u.sanitized)
    ensures FileStep(u).effects ==
      [StoreUpload(UPLOAD_FOLDER + u.sanitized),
       SaveDocument(OutputPath(UPLOAD_FOLDER, u.sanitized),
         SaveToWord(ExtractText(SelectStrategy(Extension(u.sanitized).value).value, u.sources)))]
  {
    ProceedingStep(u);
  }

  /** The success message is shown exactly when every upload proceeds. */
  lemma CompletedIffAllProceed(files: seq<Upload>)
    ensures Run(files).1 == Completed <==> forall k :: 0 <= k < |files| ==> Proceeds(files[k])
  {
    var steps := Steps(files);
    RunStepsCompletedIff(steps);
    assert (forall k :: 0 <= k < |files| ==> Proceeds(files[k])) <==>
           (forall k :: 0 <= k < |steps| ==> steps[k].stop.None?);
  }

  /** A batch whose uploads all proceed has the effects of every upload, in submission order. */
  lemma CompletedRunsEveryFile(files: seq<Upload>)
    requires forall k :: 0 <= k < |files| ==> Proceeds(files[k])
    ensures Run(files) == (EffectsOf(Steps(files)), Completed)
  {
    RunStepsCompleted(Steps(files));
  }

  /**
   * The first upload that does not proceed ends the batch: the earlier
   * uploads have all had their effects, its own effects (storing it, when
   * only its sanitised name lacks a dot) come last, and its outcome is the
   * request's.
   */
  lemma StopsAtFirstFailure(files: seq<Upload>, k: nat)
    requires k < |files|
    requires forall j :: 0 <= j < k ==> Proceeds(files[j])
    requires !Proceeds(files[k])
    ensures Run(files) == (EffectsOf(Steps(files[..k])) + FileStep(files[k]).effects, FileStep(files[k]).stop.value)
  {
    var steps := Steps(files);
    RunStepsStops(steps, k);
    StepsPrefix(files, k);
  }

  /** The uploads after the first one that does not proceed are not touched. */
  lemma LaterFilesUntouched(files: seq<Upload>, k: nat)
    requires k < |files|
    requires !Proceeds(files[k])
    ensures Run(files) == Run(files[..k + 1])
  {
    var steps := Steps(files);
    RunStepsUpTo(steps, k);
    StepsPrefix(files, k + 1);
  }

  /** Uploads after one that ends the batch change nothing. */
  lemma LaterFilesIgnored(files: seq<Upload>, later: seq<Upload>)
    requires Run(files).1 != Completed
    ensures Run(files + later) == Run(files)
  {
    RunStepsIgnoresLater(Steps(files), Steps(later));
    StepsAppend(files, later);
  }

  /** A batch that completes leaves the one after it to run as if alone. */
  lemma CompletedThenRest(files: seq<Upload>, later: seq<Upload>)
    requires Run(files).1 == Completed
    ensures Run(files + later) == (Run(files).0 + Run(later).0, Run(later).1)
  {
    CompletedIffAllProceed(files);
    var steps := Steps(files);
    assert forall k :: 0 <= k < |steps| ==> steps[k].stop.None?;
    RunStepsCompleted(steps);
    RunStepsAppend(steps, Steps(later));
    StepsAppend(files, later);
  }

  /**
   * When every sanitised name is itself accepted, each upload is stored and
   * then has exactly one output document saved: effect 2k stores upload k and
   * effect 2k+1 saves its document, in submission order.
   */
  lemma OneSavePerFile(files: seq<Upload>)
    requires forall k :: 0 <= k < |files| ==> Proceeds(files[k]) && AllowedFile(files[k].sanitized)
    ensures Run(files).1 == Completed
    ensures |Run(files).0| == 2 * |files|
    ensures forall k :: 0 <= k < |files| ==>
      Run(files).0[2 * k] == StoreUpload(UPLOAD_FOLDER + files[k].sanitized) &&
      Run(files).0[2 * k + 1] == SavedDocument(files[k])
  {
    var steps := Steps(files);
    forall k | 0 <= k < |files|
      ensures steps[k].effects == [StoreUpload(UPLOAD_FOLDER + files[k].sanitized), SavedDocument(files[k])]
    {
      ProceedingStep(files[k]);
    }
    RunStepsCompleted(steps);
    EffectsOfPairs(steps);
  }
}
