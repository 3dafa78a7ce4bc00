/** The long-running operations of ts/app.ts. Each one sends its command, stores
    the acknowledgement in `App.currentStatus` and then, every 500 ms, looks at
    `currentStatus`: `Completed` runs the operation's completion, a status the
    operation waits through asks the backend for progress (whose answer becomes the
    next `currentStatus`), `Error` shows the reason and anything else shows the
    operation's "Unknown error" message. The sixteen operations differ only in the
    statuses they wait through, the progress command, how a failed progress query
    is reported, the unknown-status message and the completion. */
module AppPolling {
  import opened Wrappers
  import opened AppSession

  datatype Family =
    | Open | Save | Export | Validate | Clean | Split | Merge | Replace | ChangeLanguage
    | RemoveTags | RemoveDuplicates | RemoveUntranslated | RemoveSameAsSource | RemoveSpaces
    | Consolidate | Maintenance

  /** The operations that change the open file once they complete. */
  predicate Edits(f: Family)
  {
    f in {Replace, ChangeLanguage, RemoveTags, RemoveDuplicates, RemoveUntranslated,
          RemoveSameAsSource, RemoveSpaces, Consolidate, Maintenance}
  }

  /** The statuses a tick waits through. `Success`, the acknowledgement of the
      command itself, is ignored by every operation; opening also waits through
      `Loading`, saving through `Saving`, and every operation except export,
      validation and cleaning through `Processing`. */
  predicate KeepWaiting(f: Family, st: Status)
    ensures KeepWaiting(f, st) ==> st !in {Completed, Error}
    ensures st == Success ==> KeepWaiting(f, st)
    ensures st.Unrecognized? ==> !KeepWaiting(f, st)
    ensures st == Processing ==> (KeepWaiting(f, st) <==> f !in {Open, Save, Export, Validate, Clean})
  {
    st == Success
    || (f == Open && st == Loading)
    || (f == Save && st == Saving)
    || (f !in {Open, Save, Export, Validate, Clean} && st == Processing)
  }

  /** The command of the progress query each operation repeats while it waits. */
  function ProgressCommand(f: Family): string
  {
    match f
    case Open => "loadingProgress"
    case Save => "savingProgress"
    case Export => "exportProgress"
    case Validate => "validatingProgress"
    case Clean => "cleaningProgress"
    case Split => "getSplitProgress"
    case Merge => "getMergeProgress"
    case _ => "processingProgress"
  }

  /** How a failed progress query is reported: export, validation and cleaning
      show the reason; the others only log it. Polling goes on in both cases. */
  function QueryFailure(f: Family, reason: string): (r: Effect)
    ensures r == Message("error", reason) || r == Log(reason)
    ensures r.Message? <==> f in {Export, Validate, Clean}
  {
    if f in {Export, Validate, Clean} then Message("error", reason) else Log(reason)
  }

  /** What a tick shows when the status is none it knows. */
  function UnknownStatus(f: Family): (r: Effect)
    ensures r.ErrorBox? || (r.Message? && r.kind == "error")
    ensures r.Message? <==> f in {Merge, Replace, ChangeLanguage}
  {
    match f
    case Open => ErrorBox("Unknown error loading file")
    case Save => ErrorBox("Unknown error saving file")
    case Export => ErrorBox("Unknown error exporting file")
    case Validate => ErrorBox("Unknown error validating file")
    case Clean => ErrorBox("Unknown error cleaning characters")
    case Split => ErrorBox("Unknown error splitting file")
    case Merge => Message("error", "Unknown error merging files")
    case Replace => Message("error", "Unknown error replacing text")
    case ChangeLanguage => Message("error", "Unknown error changing language code")
    case RemoveTags => ErrorBox("Unknown error removing tags")
    case RemoveDuplicates => ErrorBox("Unknown error removing duplicates")
    case RemoveUntranslated => ErrorBox("Unknown error removing untranslated units")
    case RemoveSameAsSource => ErrorBox("Unknown error removing entries with translation same as source")
    case RemoveSpaces => ErrorBox("Unknown error removing spaces")
    case Consolidate => ErrorBox("Unknown error consolidating units")
    case Maintenance => ErrorBox("Unknown error performing maintenance")
  }

  /** The completion of each operation. Opening clears filter and sort, makes `file`
      the current file and asks for its languages. Saving marks the file saved, then
      closes the file if a close waited for the save (`closeAnswer` is the answer to
      that `closeFile` request) and quits if a quit waited for it. Export,
      validation, cleaning, splitting and merging inform the user. The editing
      operations reload the grid (and the unit count or the languages) and mark the
      file unsaved. */
  function Complete(f: Family, s: Session, file: string, closeAnswer: Result<Reply>): (r: (Session, seq<Effect>))
  {
    match f
    case Open =>
      (s.(filterOptions := map[], sortOptions := map[], currentFile := file, saved := true), [Send(Command("getLanguages"))])
    case Save =>
      var s1 := s.(saved := true);
      var closed := if s1.shouldClose then CloseFile(s1.(shouldClose := false), DontSave, closeAnswer) else (s1, []);
      var quit := if closed.0.shouldQuit then Close(closed.0, DontSave) else (closed.0, []);
      (quit.0, closed.1 + quit.1)
    case Export => (s, [Message("info", "File exported")])
    case Validate => (s, [Message("info", "File is valid")])
    case Clean => (s, [Message("info", "File cleaned")])
    case Split => (s, [Message("info", "File split")])
    case Merge => (s, [Message("info", "Files merged")])
    case ChangeLanguage => (s.(saved := false), [Send(Command("getLanguages"))] + LoadSegments(s))
    case RemoveTags => (s.(saved := false), LoadSegments(s))
    case RemoveSpaces => (s.(saved := false), LoadSegments(s))
    case _ => (s.(saved := false), LoadSegments(s) + [Send(Command("getCount"))])
  }

  /** How a poll ended, or that it has not ended yet. */
  datatype Verdict =
    | Refused(reason: string)   // the command itself failed; no poll was started
    | Waiting                   // the poll is still running
    | Done                      // `Completed` arrived and the completion ran
    | Failed(reason: string)    // `Error` arrived
    | Unknown                   // a status the operation does not know arrived

  /** One run of the interval callback on the status stored in the session. */
  function Tick(f: Family, s: Session, file: string, closeAnswer: Result<Reply>): (r: (Session, Verdict, seq<Effect>))
  {
    var st := s.currentStatus.status;
    if st == Completed then
      var c := Complete(f, s, file, closeAnswer);
      (c.0, Done, c.1)
    else if KeepWaiting(f, st) then (s, Waiting, [Send(Command(ProgressCommand(f)))])
    else if st == Error then (s, Failed(s.currentStatus.reason), [Message("error", s.currentStatus.reason)])
    else (s, Unknown, [UnknownStatus(f)])
  }

  /** The four outcomes of a tick, by the stored status: the completion, another
      progress query, the reason of an error, or the unknown-status message. */
  lemma TickOutcomes(f: Family, s: Session, file: string, closeAnswer: Result<Reply>)
    ensures var r := Tick(f, s, file, closeAnswer);
      && !r.1.Refused?
      && (r.1 == Waiting <==> KeepWaiting(f, s.currentStatus.status))
      && (r.1 != Done ==> r.0 == s)
      && (r.1 == Done <==> s.currentStatus.status == Completed)
      && (r.1 == Done ==> (r.0, r.2) == Complete(f, s, file, closeAnswer))
      && (r.1 == Waiting ==> r.2 == [Send(Command(ProgressCommand(f)))])
      && (r.1.Failed? <==> s.currentStatus.status == Error)
      && (r.1.Failed? ==> r.1.reason == s.currentStatus.reason && r.2 == [Message("error", s.currentStatus.reason)])
      && (r.1 == Unknown <==> s.currentStatus.status !in {Completed, Error} && !KeepWaiting(f, s.currentStatus.status))
      && (r.1 == Unknown ==> r.2 == [UnknownStatus(f)])
  {
  }

  /** The answer to a progress query: a reply becomes the current status; a failed
      query leaves the status as it was. */
  function Answer(s: Session, answer: Result<Reply>): (r: Session)
    ensures answer.Ok? ==> r == s.(currentStatus := answer.value)
    ensures answer.Err? ==> r == s
  {
    match answer
    case Ok(data) => s.(currentStatus := data)
    case Err(_) => s
  }

  function AnswerEffects(f: Family, answer: Result<Reply>): (r: seq<Effect>)
    ensures answer.Ok? <==> r == []
  {
    match answer
    case Ok(_) => []
    case Err(reason) => [QueryFailure(f, reason)]
  }

  /** The poll from a given status on, the answers to the successive progress
      queries given in order. When the answers run out the poll is still `Waiting`. */
  function Run(f: Family, s: Session, file: string, answers: seq<Result<Reply>>, closeAnswer: Result<Reply>): (r: (Session, Verdict, seq<Effect>))
    ensures !r.1.Refused?
    decreases |answers|
  {
    var t := Tick(f, s, file, closeAnswer);
    if t.1 != Waiting || answers == [] then t
    else
      var rest := Run(f, Answer(s, answers[0]), file, answers[1..], closeAnswer);
      (rest.0, rest.1, t.2 + AnswerEffects(f, answers[0]) + rest.2)
  }

  /** The whole operation: the acknowledgement of its command, then the poll. */
  function PollSpec(f: Family, s: Session, file: string, ack: Result<Reply>, answers: seq<Result<Reply>>, closeAnswer: Result<Reply>): (r: (Session, Verdict, seq<Effect>))
    ensures ack.Err? ==> r == (s, Refused(ack.message), [Message("error", ack.message)])
    ensures ack.Ok? ==> r == Run(f, s.(currentStatus := ack.value), file, answers, closeAnswer)
  {
    match ack
    case Err(reason) => (s, Refused(reason), [Message("error", reason)])
    case Ok(data) => Run(f, s.(currentStatus := data), file, answers, closeAnswer)
  }

  /** A run with `effects` reported before it. */
  function After(effects: seq<Effect>, r: (Session, Verdict, seq<Effect>)): (a: (Session, Verdict, seq<Effect>))
    ensures a.0 == r.0 && a.1 == r.1 && a.2 == effects + r.2
    ensures effects == [] ==> a == r
  {
    if effects == [] then r else (r.0, r.1, effects + r.2)
  }

  lemma AfterAfter(e1: seq<Effect>, e2: seq<Effect>, r: (Session, Verdict, seq<Effect>))
    ensures After(e1, After(e2, r)) == After(e1 + e2, r)
  {
    assert e1 + (e2 + r.2) == e1 + e2 + r.2;
  }

  /** The interval loop, from the acknowledgement stored in `start`: the callback
      runs once per tick until it stops the interval or until the answers to its
      progress queries run out. */
  method Poll(f: Family, start: Session, file: string, answers: seq<Result<Reply>>, closeAnswer: Result<Reply>)
    returns (s: Session, verdict: Verdict, effects: seq<Effect>)
    ensures (s, verdict, effects) == Run(f, start, file, answers, closeAnswer)
  {
    s := start;
    effects := [];
    var i := 0;
    assert answers[0..] == answers;
    while true
      invariant 0 <= i <= |answers|
      invariant Run(f, start, file, answers, closeAnswer) == After(effects, Run(f, s, file, answers[i..], closeAnswer))
      decreases |answers| - i
    {
      var t := Tick(f, s, file, closeAnswer);
      if t.1 != Waiting || i == |answers| {
        RunStops(f, s, file, answers, i, closeAnswer);
        return t.0, t.1, effects + t.2;
      }
      PollGoesOn(f, s, file, answers, i, closeAnswer, effects, Run(f, start, file, answers, closeAnswer));
      effects := effects + t.2 + AnswerEffects(f, answers[i]);
      s := Answer(s, answers[i]);
      i := i + 1;
    }
  }

  /** The run ends with the tick when the tick stops the poll or no answer is left. */
  lemma RunStops(f: Family, s: Session, file: string, answers: seq<Result<Reply>>, i: nat, closeAnswer: Result<Reply>)
    requires i <= |answers|
    requires Tick(f, s, file, closeAnswer).1 != Waiting || i == |answers|
    ensures Run(f, s, file, answers[i..], closeAnswer) == Tick(f, s, file, closeAnswer)
  {
  }

  /** A waiting tick with an answer left hands over to the run from that answer. */
  lemma RunGoesOn(f: Family, s: Session, file: string, answers: seq<Result<Reply>>, i: nat, closeAnswer: Result<Reply>)
    requires i < |answers| && Tick(f, s, file, closeAnswer).1 == Waiting
    ensures Run(f, s, file, answers[i..], closeAnswer)
      == After(Tick(f, s, file, closeAnswer).2 + AnswerEffects(f, answers[i]),
               Run(f, Answer(s, answers[i]), file, answers[i + 1..], closeAnswer))
  {
    assert answers[i..][0] == answers[i] && answers[i..][1..] == answers[i + 1..];
  }

  /** One more waiting tick of the loop: what is still to come, after the effects
      so far, is the run from the next answer after this tick's effects. */
  lemma PollGoesOn(f: Family, s: Session, file: string, answers: seq<Result<Reply>>, i: nat, closeAnswer: Result<Reply>,
                   effects: seq<Effect>, whole: (Session, Verdict, seq<Effect>))
    requires i < |answers| && Tick(f, s, file, closeAnswer).1 == Waiting
    requires whole == After(effects, Run(f, s, file, answers[i..], closeAnswer))
    ensures whole == After(effects + Tick(f, s, file, closeAnswer).2 + AnswerEffects(f, answers[i]),
                           Run(f, Answer(s, answers[i]), file, answers[i + 1..], closeAnswer))
  {
    var step := Tick(f, s, file, closeAnswer).2 + AnswerEffects(f, answers[i]);
    RunGoesOn(f, s, file, answers, i, closeAnswer);
    AfterAfter(effects, step, Run(f, Answer(s, answers[i]), file, answers[i + 1..], closeAnswer));
    assert effects + step == effects + Tick(f, s, file, closeAnswer).2 + AnswerEffects(f, answers[i]);
  }

  // ---------------------------------------------------------------------
  // Properties of the poll

  /** Replies an operation waits through. */
  predicate AllWaiting(f: Family, replies: seq<Reply>)
  {
    forall i :: 0 <= i < |replies| ==> KeepWaiting(f, replies[i].status)
  }

  function Delivered(replies: seq<Reply>): (r: seq<Result<Reply>>)
    ensures |r| == |replies| && forall i :: 0 <= i < |r| ==> r[i] == Ok(replies[i])
  {
    if replies == [] then [] else [Ok(replies[0])] + Delivered(replies[1..])
  }

  /** After statuses it waits through, the first reply that is not one decides the
      poll alone: the session is the one that reply leaves, whatever answers follow. */
  lemma {:induction false} WaitsThenDecides(f: Family, s: Session, file: string, waits: seq<Reply>,
                                            last: Reply, rest: seq<Result<Reply>>, closeAnswer: Result<Reply>)
    requires KeepWaiting(f, s.currentStatus.status) && AllWaiting(f, waits)
    requires !KeepWaiting(f, last.status)
    ensures var r := Run(f, s, file, Delivered(waits) + [Ok(last)] + rest, closeAnswer);
      var t := Tick(f, s.(currentStatus := last), file, closeAnswer);
      r.0 == t.0 && r.1 == t.1 && r.1 != Waiting
    decreases |waits|
  {
    var answers := Delivered(waits) + [Ok(last)] + rest;
    if waits == [] {
      assert answers[0] == Ok(last) && answers[1..] == rest;
    } else {
      assert answers[0] == Ok(waits[0]);
      assert answers[1..] == Delivered(waits[1..]) + [Ok(last)] + rest;
      WaitsThenDecides(f, s.(currentStatus := waits[0]), file, waits[1..], last, rest, closeAnswer);
    }
  }

  /** `Completed` after any number of waiting statuses runs the completion exactly
      on the session the operation started from. */
  lemma CompletesAfterWaiting(f: Family, s: Session, file: string, waits: seq<Reply>,
                              last: Reply, rest: seq<Result<Reply>>, closeAnswer: Result<Reply>)
    requires KeepWaiting(f, s.currentStatus.status) && AllWaiting(f, waits) && last.status == Completed
    ensures var r := Run(f, s, file, Delivered(waits) + [Ok(last)] + rest, closeAnswer);
      r.1 == Done && r.0 == Complete(f, s.(currentStatus := last), file, closeAnswer).0
  {
    WaitsThenDecides(f, s, file, waits, last, rest, closeAnswer);
  }

  /** `Error` after any number of waiting statuses ends the poll with its reason and
      changes nothing in the session but the stored status. */
  lemma ErrorAfterWaiting(f: Family, s: Session, file: string, waits: seq<Reply>,
                          last: Reply, rest: seq<Result<Reply>>, closeAnswer: Result<Reply>)
    requires KeepWaiting(f, s.currentStatus.status) && AllWaiting(f, waits) && last.status == Error
    ensures var r := Run(f, s, file, Delivered(waits) + [Ok(last)] + rest, closeAnswer);
      r.1 == Failed(last.reason) && r.0 == s.(currentStatus := last)
  {
    WaitsThenDecides(f, s, file, waits, last, rest, closeAnswer);
  }

  /** Only the completion changes the session: a poll that failed, met an unknown
      status or is still waiting changed nothing but the stored status. */
  lemma {:induction false} OnlyCompletionChanges(f: Family, s: Session, file: string,
                                                answers: seq<Result<Reply>>, closeAnswer: Result<Reply>)
    ensures var r := Run(f, s, file, answers, closeAnswer);
      r.1 != Done ==> r.0 == s.(currentStatus := r.0.currentStatus)
    decreases |answers|
  {
    var t := Tick(f, s, file, closeAnswer);
    TickOutcomes(f, s, file, closeAnswer);
    if t.1 == Waiting && answers != [] {
      var s1 := Answer(s, answers[0]);
      OnlyCompletionChanges(f, s1, file, answers[1..], closeAnswer);
      var r1 := Run(f, s1, file, answers[1..], closeAnswer);
      assert s1 == s.(currentStatus := s1.currentStatus);
      assert Run(f, s, file, answers, closeAnswer).0 == r1.0;
    }
  }

  /** The answers that carried a reply, in order. */
  function Replies(answers: seq<Result<Reply>>): (r: seq<Result<Reply>>)
    ensures |r| <= |answers|
    ensures forall i :: 0 <= i < |r| ==> r[i].Ok? && r[i] in answers
  {
    if answers == [] then []
    else (if answers[0].Ok? then [answers[0]] else []) + Replies(answers[1..])
  }

  /** Failed progress queries change nothing but what is reported: the poll reaches
      the same verdict and the same session as if only the replies had arrived. */
  lemma {:induction false} FailedQueriesAreHarmless(f: Family, s: Session, file: string,
                                                   answers: seq<Result<Reply>>, closeAnswer: Result<Reply>)
    ensures var r := Run(f, s, file, answers, closeAnswer);
      var q := Run(f, s, file, Replies(answers), closeAnswer);
      r.0 == q.0 && r.1 == q.1
    decreases |answers|
  {
    var t := Tick(f, s, file, closeAnswer);
    if t.1 == Waiting && answers != [] {
      var rs := Replies(answers);
      FailedQueriesAreHarmless(f, Answer(s, answers[0]), file, answers[1..], closeAnswer);
      if answers[0].Ok? {
        assert rs == [answers[0]] + Replies(answers[1..]);
        assert rs[0] == answers[0] && rs[1..] == Replies(answers[1..]);
      } else {
        assert rs == Replies(answers[1..]);
        assert Answer(s, answers[0]) == s;
        FailedQueriesAreHarmless(f, s, file, answers[1..], closeAnswer);
        if answers[1..] != [] {
          UnfoldWaiting(f, s, file, answers[1..], closeAnswer);
        }
      }
    }
  }

  /** While the status is one the operation waits through, a run with answers left
      is the run that starts from the first answer. */
  lemma UnfoldWaiting(f: Family, s: Session, file: string, answers: seq<Result<Reply>>, closeAnswer: Result<Reply>)
    requires KeepWaiting(f, s.currentStatus.status) && answers != []
    ensures Run(f, s, file, answers, closeAnswer).0 == Run(f, Answer(s, answers[0]), file, answers[1..], closeAnswer).0
    ensures Run(f, s, file, answers, closeAnswer).1 == Run(f, Answer(s, answers[0]), file, answers[1..], closeAnswer).1
  {
  }

  /** Export, validation and cleaning do not wait through `Processing`: it ends
      their poll with the unknown-status message. */
  lemma ProcessingIsFatalFor(f: Family, s: Session, file: string, closeAnswer: Result<Reply>)
    requires f in {Export, Validate, Clean} && s.currentStatus.status == Processing
    ensures Tick(f, s, file, closeAnswer) == (s, Unknown, [UnknownStatus(f)])
  {
  }

  // ---------------------------------------------------------------------
  // Completions

  /** Opening completes with the new file current and saved, and the filter and
      the sort cleared; nothing else in the session changes. */
  lemma OpenCompletion(s: Session, file: string, closeAnswer: Result<Reply>)
    ensures var r := Complete(Open, s, file, closeAnswer);
      && r.0.currentFile == file && r.0.saved
      && r.0.filterOptions == map[] && r.0.sortOptions == map[]
      && r.0.(currentFile := s.currentFile, saved := s.saved, filterOptions := s.filterOptions, sortOptions := s.sortOptions) == s
      && r.1 == [Send(Command("getLanguages"))]
  {
  }

  /** The editing operations complete with the file marked unsaved and the grid
      requested again (when a file is open). */
  lemma EditCompletion(f: Family, s: Session, file: string, closeAnswer: Result<Reply>)
    requires Edits(f)
    ensures var r := Complete(f, s, file, closeAnswer);
      && r.0 == s.(saved := false)
      && (s.currentFile != "" ==> Send(SegmentsRequest(s).value) in r.1)
      && (f !in {ChangeLanguage, RemoveTags, RemoveSpaces} ==> Send(Command("getCount")) in r.1)
      && (f in {RemoveTags, RemoveSpaces} ==> r.1 == LoadSegments(s))
  {
    var r := Complete(f, s, file, closeAnswer);
    if s.currentFile != "" {
      var load := Send(SegmentsRequest(s).value);
      assert load in LoadSegments(s);
      if f == ChangeLanguage {
        assert r.1 == [Send(Command("getLanguages"))] + LoadSegments(s);
        assert r.1[1] == load;
      }
      if f !in {ChangeLanguage, RemoveTags, RemoveSpaces} {
        assert r.1[0] == load;
      }
    }
    if f !in {ChangeLanguage, RemoveTags, RemoveSpaces} {
      assert r.1[|r.1| - 1] == Send(Command("getCount"));
    }
  }

  /** Saving completes with the file saved and no close pending. A pending quit
      closes the main window; a pending close sends `closeFile`, and a successful
      answer to it leaves no file open. */
  lemma SaveCompletion(s: Session, file: string, closeAnswer: Result<Reply>)
    ensures var r := Complete(Save, s, file, closeAnswer);
      && !r.0.shouldClose
      && (r.0.saved || s.shouldQuit)
      && (r.0.currentFile == s.currentFile || r.0.currentFile == "")
      && (s.shouldQuit ==> r.1[|r.1| - 1] == CloseMainWindow)
      && (!s.shouldQuit ==> CloseMainWindow !in r.1)
      && (s.shouldClose && s.currentFile != "" ==> r.1[0] == Send(Command("closeFile")))
      && (s.shouldClose && s.currentFile != "" && closeAnswer.Ok? && closeAnswer.value.status == Success
          ==> r.0.currentFile == "")
      && (!s.shouldClose ==> r.0.currentFile == s.currentFile)
  {
    var s1 := s.(saved := true);
    if s.shouldClose {
      var closed := CloseFile(s1.(shouldClose := false), DontSave, closeAnswer);
      assert closed.0.shouldQuit == s.shouldQuit && !closed.0.shouldClose;
      assert CloseMainWindow !in closed.1;
    }
  }

  /** A quit that waited for a save is still pending after that save failed: the
      next save that completes closes the main window although the user did not ask
      to quit again. */
  lemma PendingQuitSurvivesFailedSave(s: Session, reason: string, file: string, closeAnswer: Result<Reply>)
    requires s.currentFile != "" && !s.saved && !s.needsName && !s.shouldClose
    ensures var asked := Close(s, SaveButton);
      && asked.0.shouldQuit && CloseMainWindow !in asked.1
      && var failed := Run(Save, asked.0.(currentStatus := Reply(Error, reason)), file, [], closeAnswer);
      && failed.1 == Failed(reason) && failed.0.shouldQuit
      && var later := Run(Save, failed.0.(currentStatus := Reply(Completed, "")), file, [], closeAnswer);
      && later.1 == Done && CloseMainWindow in later.2
  {
    var asked := Close(s, SaveButton);
    var failed := Run(Save, asked.0.(currentStatus := Reply(Error, reason)), file, [], closeAnswer);
    var done := failed.0.(currentStatus := Reply(Completed, ""));
    SaveCompletion(done, file, closeAnswer);
  }
}
