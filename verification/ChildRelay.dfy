/**
  The child-injection transaction of child_process_relay.cpp. A child is created suspended,
  the relay tries to inject the module into it, and then the obligation to resume it, leave
  it to its caller or terminate it has to be met exactly once.

  Everything the operating system answers is an input (`Answers`), so a statement about all
  answers is a statement about all runs. The calls the relay makes on the child are logged.
 */
module ChildRelay {
  import opened Common

  const ERROR_SUCCESS: nat := 0
  const ERROR_FILE_NOT_FOUND: nat := 2
  const ERROR_NOT_ENOUGH_MEMORY: nat := 8
  const ERROR_INVALID_PARAMETER: nat := 87
  const ERROR_PROC_NOT_FOUND: nat := 127
  const ERROR_PROCESS_ABORTED: nat := 1067
  const ERROR_NO_UNICODE_TRANSLATION: nat := 1113
  const ERROR_DLL_INIT_FAILED: nat := 1114
  const ERROR_TIMEOUT: nat := 1460

  const CREATE_SUSPENDED: bv32 := 0x4
  // DEBUG_PROCESS, DEBUG_ONLY_THIS_PROCESS, DETACHED_PROCESS, CREATE_PROTECTED_PROCESS and
  // CREATE_SECURE_PROCESS.
  const UNSUPPORTED_CREATION_FLAGS: bv32 := 0x1 | 0x2 | 0x8 | 0x4_0000 | 0x40_0000

  const QUIET_SKIP_BASE: nat := 0x2000_0000

  datatype Disposition = Bypassed | Injected | QuietlySkipped | RelayFailed | UnsafeToResume

  datatype Reason =
    | NoReason
    | UnsupportedCreationMode
    | IdentityUnavailable
    | SessionZero
    | ProtectionUnavailable
    | ProtectedProcess
    | CriticalityUnavailable
    | CriticalProcess
    | ImageNameUnavailable
    | ExcludedImage
    | UnsupportedArchitecture
    | DynamicCodeProhibited
    | BinarySignatureRestricted
    | FixedGenerationUnavailable
    | SameArchitectureInjectionFailed
    | MixedArchitectureHelperFailed
    | MixedArchitectureHelperTimeout
    | ResumeFailed

  // The enumerators in the order of child_process_relay.h:44-64.
  const REASONS: seq<Reason> := [
    NoReason, UnsupportedCreationMode, IdentityUnavailable, SessionZero, ProtectionUnavailable,
    ProtectedProcess, CriticalityUnavailable, CriticalProcess, ImageNameUnavailable,
    ExcludedImage, UnsupportedArchitecture, DynamicCodeProhibited, BinarySignatureRestricted,
    FixedGenerationUnavailable, SameArchitectureInjectionFailed, MixedArchitectureHelperFailed,
    MixedArchitectureHelperTimeout, ResumeFailed]

  function ReasonValue(reason: Reason): nat {
    match reason
    case NoReason => 0
    case UnsupportedCreationMode => 1
    case IdentityUnavailable => 2
    case SessionZero => 3
    case ProtectionUnavailable => 4
    case ProtectedProcess => 5
    case CriticalityUnavailable => 6
    case CriticalProcess => 7
    case ImageNameUnavailable => 8
    case ExcludedImage => 9
    case UnsupportedArchitecture => 10
    case DynamicCodeProhibited => 11
    case BinarySignatureRestricted => 12
    case FixedGenerationUnavailable => 13
    case SameArchitectureInjectionFailed => 14
    case MixedArchitectureHelperFailed => 15
    case MixedArchitectureHelperTimeout => 16
    case ResumeFailed => 17
  }

  datatype Attempt = Attempt(disposition: Disposition, reason: Reason, windowsError: nat)

  const INJECTED: Attempt := Attempt(Injected, NoReason, ERROR_SUCCESS)

  function QuietSkip(reason: Reason): Attempt {
    Attempt(QuietlySkipped, reason, ERROR_SUCCESS)
  }

  // ---------------------------------------------------------------- exit codes of the helper

  function EncodeQuietSkip(reason: Reason): nat {
    QUIET_SKIP_BASE + ReasonValue(reason)
  }

  function DecodeQuietSkip(exitCode: nat): Option<Reason> {
    if exitCode < QUIET_SKIP_BASE || exitCode - QUIET_SKIP_BASE > ReasonValue(ResumeFailed) then None
    else
      var reason := REASONS[exitCode - QUIET_SKIP_BASE];
      if reason == NoReason then None else Some(reason)
  }

  // What RelayChildProcess finds out in the helper process.
  datatype HelperFindings = HelperFindings(
    valid: bool, classification: Reason, modulePathFound: bool, detoured: bool)

  // RelayChildProcess: the code the helper exits with (lines 724-749).
  function HelperExitCode(f: HelperFindings): nat {
    var classification := if f.valid then f.classification else IdentityUnavailable;
    if classification != NoReason then
      if classification == IdentityUnavailable then ERROR_INVALID_PARAMETER
      else EncodeQuietSkip(classification)
    else if f.modulePathFound && f.detoured then ERROR_SUCCESS
    else ERROR_DLL_INIT_FAILED
  }

  // How the parent reads that code (lines 526-533).
  function AttemptFromExitCode(exitCode: nat): Attempt {
    if exitCode == ERROR_SUCCESS then INJECTED
    else match DecodeQuietSkip(exitCode)
      case Some(reason) => QuietSkip(reason)
      case None => Attempt(RelayFailed, MixedArchitectureHelperFailed, exitCode)
  }

  lemma ReasonsInOrder(k: int, reason: Reason)
    ensures 0 <= k < 18 ==> (REASONS[k] == reason <==> ReasonValue(reason) == k)
  {
  }

  /** Every reason but `none` survives the trip through an exit code, and nothing else decodes. */
  lemma QuietSkipRoundTrip(reason: Reason, exitCode: nat)
    ensures DecodeQuietSkip(exitCode) == Some(reason) <==> reason != NoReason && exitCode == EncodeQuietSkip(reason)
  {
    ReasonsInOrder(exitCode - QUIET_SKIP_BASE, reason);
  }

  /** The parent learns exactly what the helper found: success, the very reason it skipped,
      or failure; no two of these share an exit code. */
  lemma HelperProtocol(f: HelperFindings)
    ensures var a := AttemptFromExitCode(HelperExitCode(f));
            && (a == INJECTED <==> f.valid && f.classification == NoReason && f.modulePathFound && f.detoured)
            && (forall r :: a == QuietSkip(r) <==>
                  f.valid && f.classification == r && r != NoReason && r != IdentityUnavailable)
            && (a.disposition == RelayFailed <==>
                  !f.valid || f.classification == IdentityUnavailable ||
                  (f.classification == NoReason && !(f.modulePathFound && f.detoured)))
            && a.disposition != UnsafeToResume
  {
    QuietSkipRoundTrip(f.classification, HelperExitCode(f));
    if DecodeQuietSkip(HelperExitCode(f)).Some? {
      QuietSkipRoundTrip(DecodeQuietSkip(HelperExitCode(f)).value, HelperExitCode(f));
    }
  }

  // ---------------------------------------------------------------- the injection attempt

  datatype WaitAnswer = Signalled | TimedOut | WaitFailed(error: nat)

  datatype HelperAnswers =
    | HelperThrows
    | PathsMissing
    | DuplicateFails(error: nat)
    | AttributesFail(error: nat)
    | CreateFails(error: nat)
    | Launched(wait: WaitAnswer, exitCode: Option<nat>, exitCodeError: nat)

  // InjectWithMatchingHelper (lines 455-541).
  function InjectWithMatchingHelper(answers: HelperAnswers): Attempt {
    match answers
    case HelperThrows => Attempt(RelayFailed, MixedArchitectureHelperFailed, ERROR_NOT_ENOUGH_MEMORY)
    case PathsMissing => Attempt(RelayFailed, FixedGenerationUnavailable, ERROR_FILE_NOT_FOUND)
    case DuplicateFails(error) => Attempt(RelayFailed, MixedArchitectureHelperFailed, error)
    case AttributesFail(error) => Attempt(RelayFailed, MixedArchitectureHelperFailed, error)
    case CreateFails(error) => Attempt(RelayFailed, MixedArchitectureHelperFailed, error)
    case Launched(Signalled, Some(exitCode), _) => AttemptFromExitCode(exitCode)
    case Launched(Signalled, None, error) => Attempt(RelayFailed, MixedArchitectureHelperFailed, error)
    case Launched(TimedOut, _, _) => Attempt(UnsafeToResume, MixedArchitectureHelperTimeout, ERROR_TIMEOUT)
    case Launched(WaitFailed(error), _, _) => Attempt(UnsafeToResume, MixedArchitectureHelperFailed, error)
  }

  datatype TargetAnswers = TargetAnswers(
    captured: bool,
    classification: Reason,
    revalidated: bool,
    throws: bool,
    modulePathFound: bool,
    ansiPathFound: bool,
    sameArchitecture: bool,
    detoured: bool,
    detourError: nat,
    helper: HelperAnswers)

  // Lines 797-802 and InjectFixedModule (lines 561-600).
  function InjectionAttempt(t: TargetAnswers): Attempt {
    if !t.captured then Attempt(RelayFailed, IdentityUnavailable, ERROR_INVALID_PARAMETER)
    else if t.classification != NoReason then QuietSkip(t.classification)
    else if !t.revalidated then Attempt(RelayFailed, IdentityUnavailable, ERROR_INVALID_PARAMETER)
    else if t.throws then Attempt(RelayFailed, SameArchitectureInjectionFailed, ERROR_NOT_ENOUGH_MEMORY)
    else if !t.modulePathFound then Attempt(RelayFailed, FixedGenerationUnavailable, ERROR_FILE_NOT_FOUND)
    else if !t.ansiPathFound then Attempt(RelayFailed, FixedGenerationUnavailable, ERROR_NO_UNICODE_TRANSLATION)
    else if !t.sameArchitecture then InjectWithMatchingHelper(t.helper)
    else if t.detoured then INJECTED
    else Attempt(RelayFailed, SameArchitectureInjectionFailed, t.detourError)
  }

  // A helper was started on the child and the wait for it did not complete.
  ghost predicate HelperMayStillRun(t: TargetAnswers) {
    && t.captured && t.classification == NoReason
    && t.revalidated && !t.throws && t.modulePathFound && t.ansiPathFound && !t.sameArchitecture
    && t.helper.Launched? && t.helper.wait != Signalled
  }

  /** The attempt is unsafe exactly when a helper may still be writing to the child. */
  lemma UnsafeMeansHelperMayStillRun(t: TargetAnswers)
    ensures InjectionAttempt(t).disposition == UnsafeToResume <==> HelperMayStillRun(t)
  {
  }

  // Every check that comes before the injection itself.
  ghost predicate Passed(t: TargetAnswers) {
    && t.captured && t.classification == NoReason && t.revalidated
    && !t.throws && t.modulePathFound && t.ansiPathFound
  }

  // The helper's code, if its wait completed and the code could be read.
  ghost predicate HelperExited(t: TargetAnswers, code: nat) {
    t.helper.Launched? && t.helper.wait == Signalled && t.helper.exitCode == Some(code)
  }

  ghost predicate WasInjected(t: TargetAnswers) {
    Passed(t) && if t.sameArchitecture then t.detoured else HelperExited(t, 0)
  }

  // The target, or the helper after it, was classified as c; c is number k of the reasons.
  ghost predicate ClassifiedAs(t: TargetAnswers, c: Reason, k: int) {
    && 0 < k < |REASONS| && REASONS[k] == c
    && ((t.captured && t.classification == c) || (Passed(t) && !t.sameArchitecture && HelperExited(t, 0x2000_0000 + k)))
  }

  // What failed first, with its reason and its error.
  ghost predicate FailedWith(t: TargetAnswers, reason: Reason, error: nat) {
    || (!t.captured && reason == IdentityUnavailable && error == 87)
    || (t.captured && t.classification == NoReason &&
        if !t.revalidated then reason == IdentityUnavailable && error == 87
        else if t.throws then reason == SameArchitectureInjectionFailed && error == 8
        else if !t.modulePathFound then reason == FixedGenerationUnavailable && error == 2
        else if !t.ansiPathFound then reason == FixedGenerationUnavailable && error == 1113
        else if t.sameArchitecture then !t.detoured && reason == SameArchitectureInjectionFailed && error == t.detourError
        else HelperFailedWith(t.helper, reason, error))
  }

  ghost predicate HelperFailedWith(h: HelperAnswers, reason: Reason, error: nat) {
    if h.PathsMissing? then reason == FixedGenerationUnavailable && error == 2
    else
      reason == MixedArchitectureHelperFailed &&
      match h
      case HelperThrows => error == 8
      case DuplicateFails(e) => error == e
      case AttributesFail(e) => error == e
      case CreateFails(e) => error == e
      case Launched(wait, code, e) =>
        && wait == Signalled
        && (code.None? ==> error == e)
        && (code.Some? ==> code.value != 0 && error == code.value && !(0x2000_0000 < code.value < 0x2000_0000 + |REASONS|))
      case PathsMissing => false
  }

  // The wait for a helper that was started did not complete.
  ghost predicate UnsafeWith(t: TargetAnswers, reason: Reason, error: nat) {
    && HelperMayStillRun(t)
    && (t.helper.wait == TimedOut ==> reason == MixedArchitectureHelperTimeout && error == 1460)
    && (t.helper.wait.WaitFailed? ==> reason == MixedArchitectureHelperFailed && error == t.helper.wait.error)
  }

  // What a disposition, reason and error say about the answers.
  ghost predicate Explains(t: TargetAnswers, d: Disposition, reason: Reason, error: nat) {
    && (d == Injected <==> WasInjected(t))
    && (d == Injected ==> reason == NoReason && error == 0)
    && (forall c, k :: ClassifiedAs(t, c, k) ==> d == QuietlySkipped && reason == c && error == 0)
    && (d == QuietlySkipped ==> error == 0 && exists k :: ClassifiedAs(t, reason, k))
    && (d == RelayFailed <==> exists r, e :: FailedWith(t, r, e))
    && (d == RelayFailed ==> FailedWith(t, reason, error))
    && (d == UnsafeToResume <==> HelperMayStillRun(t))
    && (d == UnsafeToResume ==> UnsafeWith(t, reason, error))
    && d != Bypassed
  }

  /** The attempt says exactly what happened, in the order of the tests: injection, the very
      classification, the first failure with its error, or an unfinished wait. */
  lemma AttemptExplained(t: TargetAnswers)
    ensures var a := InjectionAttempt(t); Explains(t, a.disposition, a.reason, a.windowsError)
  {
    hide InjectionAttempt, FailedWith, WasInjected, ClassifiedAs, HelperMayStillRun, UnsafeWith, REASONS;
    var a := InjectionAttempt(t);
    ExplainInjected(t);
    ExplainUnsafe(t);
    ExplainQuiet(t);
    forall r, e | FailedWith(t, r, e)
      ensures a.disposition == RelayFailed
    {
      ExplainFailed(t, r, e);
    }
    ExplainFailed(t, a.reason, a.windowsError);
  }

  lemma ExplainInjected(t: TargetAnswers)
    ensures var a := InjectionAttempt(t);
            && (a.disposition == Injected <==> WasInjected(t))
            && (a.disposition == Injected ==> a.reason == NoReason && a.windowsError == 0)
            && a.disposition != Bypassed
  {
    hide AttemptFromExitCode;
    if t.helper.Launched? && t.helper.exitCode.Some? {
      CodeMeans(t.helper.exitCode.value);
    }
  }

  lemma ExplainUnsafe(t: TargetAnswers)
    ensures var a := InjectionAttempt(t);
            && (a.disposition == UnsafeToResume <==> HelperMayStillRun(t))
            && (a.disposition == UnsafeToResume ==> UnsafeWith(t, a.reason, a.windowsError))
  {
    UnsafeMeansHelperMayStillRun(t);
  }

  lemma ExplainQuiet(t: TargetAnswers)
    ensures var a := InjectionAttempt(t);
            && (forall c, k :: ClassifiedAs(t, c, k) ==> a == QuietSkip(c))
            && (a.disposition == QuietlySkipped ==> a.windowsError == 0 && exists k :: ClassifiedAs(t, a.reason, k))
  {
    hide AttemptFromExitCode, REASONS;
    var a := InjectionAttempt(t);
    if t.helper.Launched? && t.helper.exitCode.Some? {
      CodeMeans(t.helper.exitCode.value);
    }
    forall c, k | ClassifiedAs(t, c, k)
      ensures a == QuietSkip(c)
    {
      NumberOne(c, k);
    }
    if a.disposition == QuietlySkipped {
      SomeNumber(a.reason);
      var k :| 0 <= k < |REASONS| && REASONS[k] == a.reason;
      NumberOne(a.reason, k);
      if t.captured && t.classification == a.reason {
        assert ClassifiedAs(t, a.reason, k);
      } else {
        assert ClassifiedAs(t, a.reason, t.helper.exitCode.value - 0x2000_0000);
      }
    }
  }

  // Number 0 is no reason.
  lemma NumberOne(c: Reason, k: int)
    requires 0 <= k < |REASONS| && REASONS[k] == c
    ensures k > 0 <==> c != NoReason
  {
    ReasonsInOrder(k, c);
  }

  lemma ExplainFailed(t: TargetAnswers, r: Reason, e: nat)
    ensures var a := InjectionAttempt(t);
            && (FailedWith(t, r, e) ==> a.disposition == RelayFailed)
            && (a.disposition == RelayFailed ==> FailedWith(t, a.reason, a.windowsError))
  {
    hide AttemptFromExitCode, REASONS;
    if t.helper.Launched? && t.helper.exitCode.Some? {
      CodeMeans(t.helper.exitCode.value);
    }
  }

  lemma ExplainsUnsafe(t: TargetAnswers, a: Attempt)
    requires Explains(t, a.disposition, a.reason, a.windowsError)
    ensures a.disposition == UnsafeToResume <==> HelperMayStillRun(t)
    ensures HelperMayStillRun(t) ==> UnsafeWith(t, a.reason, a.windowsError)
  {}

  lemma SomeNumber(reason: Reason)
    ensures exists k :: 0 <= k < |REASONS| && REASONS[k] == reason
  {
    assert REASONS[ReasonValue(reason)] == reason by {
      ReasonsInOrder(ReasonValue(reason), reason);
    }
  }

  // An exit code is success, the number of a reason, or a failure.
  lemma CodeMeans(code: nat)
    ensures var a := AttemptFromExitCode(code);
            && (code == 0 <==> a.disposition == Injected)
            && (code == 0 ==> a == INJECTED)
            && (0x2000_0000 < code < 0x2000_0000 + |REASONS| <==> a.disposition == QuietlySkipped)
            && (a.disposition == QuietlySkipped ==> a == Attempt(QuietlySkipped, REASONS[code - 0x2000_0000], 0) && a.reason != NoReason)
            && (a.disposition == RelayFailed ==> a == Attempt(RelayFailed, MixedArchitectureHelperFailed, code))
            && (a.disposition == RelayFailed || a.disposition == QuietlySkipped || a.disposition == Injected)
  {}

  // ---------------------------------------------------------------- the obligation

  type Handle = nat
  const NULL_HANDLE: Handle := 0

  datatype Info = Info(hProcess: Handle, hThread: Handle, processId: nat, threadId: nat)
  const NO_INFO: Info := Info(NULL_HANDLE, NULL_HANDLE, 0, 0)

  datatype Call =
    | CreateProcess(flags: bv32)
    | ResumeThread(thread: Handle, resumed: bool)
    | TerminateProcess(process: Handle, error: nat)
    | WaitForExit(process: Handle)
    | CloseHandle(handle: Handle)

  // PROCESS_INFORMATION, and the calls made on the child so far.
  class Child {
    var info: Info
    ghost var calls: seq<Call>

    constructor ()
      ensures info == NO_INFO && calls == []
    {
      info, calls := NO_INFO, [];
    }
  }

  datatype Completion = PassThrough | CallerSuspended | Resumed | Terminated

  datatype Result = Result(
    createResult: bool, lastError: nat, relayError: nat,
    relay: Disposition, reason: Reason, thread: Completion)

  const NO_RESULT: Result := Result(false, ERROR_SUCCESS, ERROR_SUCCESS, Bypassed, NoReason, PassThrough)

  // Each handle of the child is closed once, after the process has been ended.
  ghost function ReleaseCalls(info: Info, error: nat): seq<Call> {
    (if info.hProcess != NULL_HANDLE then [TerminateProcess(info.hProcess, error), WaitForExit(info.hProcess)] else [])
    + (if info.hThread != NULL_HANDLE then [CloseHandle(info.hThread)] else [])
    + (if info.hProcess != NULL_HANDLE then [CloseHandle(info.hProcess)] else [])
  }

  /** The process is ended and waited for once, before its handle is closed; each handle that
      is there is closed once, and nothing else is called. */
  lemma ReleaseOnce(info: Info, error: nat)
    ensures var end, wait := TerminateProcess(info.hProcess, error), WaitForExit(info.hProcess);
            var thread, process := CloseHandle(info.hThread), CloseHandle(info.hProcess);
            ReleaseCalls(info, error) ==
            if info.hProcess != 0 && info.hThread != 0 then [end, wait, thread, process]
            else if info.hProcess != 0 then [end, wait, process]
            else if info.hThread != 0 then [thread]
            else []
  {}

  // The three ways the obligation can be met, starting from `info` with `before` on the log.
  ghost predicate LeftToCaller(r: Result, before: seq<Call>, info: Info, after: seq<Call>, info': Info, creationError: nat) {
    && r.thread == CallerSuspended
    && r.createResult && r.lastError == creationError && r.relay != UnsafeToResume
    && after == before && info' == info
  }

  ghost predicate ResumedOnce(r: Result, before: seq<Call>, info: Info, after: seq<Call>, info': Info, creationError: nat) {
    && r.thread == Resumed
    && r.createResult && r.lastError == creationError && r.relay != UnsafeToResume
    && after == before + [ResumeThread(info.hThread, true)] && info' == info
  }

  ghost predicate EndedOnce(r: Result, before: seq<Call>, info: Info, after: seq<Call>, info': Info) {
    && r.thread == Terminated
    && !r.createResult && r.relay == UnsafeToResume
    && (after == before + ReleaseCalls(info, r.lastError) ||
        after == before + [ResumeThread(info.hThread, false)] + ReleaseCalls(info, r.lastError))
    && info' == NO_INFO
  }

  class SuspendedChildObligation {
    const child: Child
    const callerRequestedSuspended: bool
    var completed: bool

    constructor (child: Child, callerRequestedSuspended: bool)
      ensures this.child == child && this.callerRequestedSuspended == callerRequestedSuspended && !completed
    {
      this.child := child;
      this.callerRequestedSuspended := callerRequestedSuspended;
      completed := false;
    }

    method TerminateAndRelease(error: nat)
      modifies child
      ensures child.info == NO_INFO
      ensures child.calls == old(child.calls) + ReleaseCalls(old(child.info), error)
    {
      if child.info.hProcess != NULL_HANDLE {
        child.calls := child.calls + [TerminateProcess(child.info.hProcess, error)];
        child.calls := child.calls + [WaitForExit(child.info.hProcess)];
      }
      if child.info.hThread != NULL_HANDLE {
        child.calls := child.calls + [CloseHandle(child.info.hThread)];
      }
      if child.info.hProcess != NULL_HANDLE {
        child.calls := child.calls + [CloseHandle(child.info.hProcess)];
      }
      child.info := NO_INFO;
    }

    // `resumeError` is what ResumeThread would fail with, if it fails.
    method Complete(attempt: Attempt, creationError: nat, resumeError: Option<nat>) returns (r: Result)
      modifies this, child
      ensures completed
      ensures r.relayError == attempt.windowsError
      ensures EndedOnce(r, old(child.calls), old(child.info), child.calls, child.info) <==>
              attempt.disposition == UnsafeToResume || (!callerRequestedSuspended && resumeError.Some?)
      ensures LeftToCaller(r, old(child.calls), old(child.info), child.calls, child.info, creationError) <==>
              attempt.disposition != UnsafeToResume && callerRequestedSuspended
      ensures ResumedOnce(r, old(child.calls), old(child.info), child.calls, child.info, creationError) <==>
              attempt.disposition != UnsafeToResume && !callerRequestedSuspended && resumeError.None?
      ensures r.thread != Terminated ==> (r.relay, r.reason) == (attempt.disposition, attempt.reason)
      ensures r.thread == Terminated ==>
                if attempt.disposition == UnsafeToResume then
                  && r.reason == attempt.reason
                  && r.lastError == (if attempt.windowsError == ERROR_SUCCESS then ERROR_PROCESS_ABORTED else attempt.windowsError)
                  && child.calls == old(child.calls) + ReleaseCalls(old(child.info), r.lastError)
                else
                  && r.reason == ResumeFailed
                  && r.lastError == resumeError.value
                  && child.calls == old(child.calls) + [ResumeThread(old(child.info.hThread), false)]
                                    + ReleaseCalls(old(child.info), r.lastError)
    {
      r := NO_RESULT.(relay := attempt.disposition, reason := attempt.reason, relayError := attempt.windowsError);
      if attempt.disposition == UnsafeToResume {
        var error := if attempt.windowsError == ERROR_SUCCESS then ERROR_PROCESS_ABORTED else attempt.windowsError;
        TerminateAndRelease(error);
        r := r.(createResult := false, lastError := error, thread := Terminated);
        completed := true;
        return;
      }
      if callerRequestedSuspended {
        r := r.(createResult := true, lastError := creationError, thread := CallerSuspended);
        completed := true;
        return;
      }
      child.calls := child.calls + [ResumeThread(child.info.hThread, resumeError.None?)];
      if resumeError.Some? {
        var error := resumeError.value;
        TerminateAndRelease(error);
        r := r.(createResult := false, lastError := error, relay := UnsafeToResume,
                reason := ResumeFailed, thread := Terminated);
        completed := true;
        return;
      }
      r := r.(createResult := true, lastError := creationError, thread := Resumed);
      completed := true;
    }

    // The destructor.
    method Dispose()
      modifies child
      ensures completed ==> child.calls == old(child.calls) && child.info == old(child.info)
      ensures !completed && old(child.info.hProcess) != NULL_HANDLE ==>
                && child.info == NO_INFO
                && child.calls == old(child.calls) + ReleaseCalls(old(child.info), ERROR_PROCESS_ABORTED)
    {
      if !completed && child.info.hProcess != NULL_HANDLE {
        TerminateAndRelease(ERROR_PROCESS_ABORTED);
      }
    }
  }

  // ---------------------------------------------------------------- the transaction

  datatype CreateCall = CreateCall(flags: bv32, relayBypassed: bool, wantsProcessInformation: bool) {
    // Lines 763-766.
    predicate PassedThrough() {
      relayBypassed || !wantsProcessInformation || flags & UNSUPPORTED_CREATION_FLAGS != 0
    }
  }

  datatype Answers = Answers(
    createProcessFound: bool,
    created: bool,
    creationError: nat,
    info: Info,
    target: TargetAnswers,
    resumeError: Option<nat>)

  /** ExecuteVerifiedChildInjection. Once the suspended creation has succeeded the child is
      exactly one of: left suspended because the caller asked for it, resumed once, or ended
      with its handles closed once. It is ended exactly when a helper may still be writing to
      it or it could not be resumed; otherwise the caller sees the original call's outcome. A
      child whose helper may still run is never resumed, not even in vain. */
  method ExecuteVerifiedChildInjection(call: CreateCall, answers: Answers, child: Child) returns (r: Result)
    modifies child
    ensures !answers.createProcessFound ==>
              && r == NO_RESULT.(lastError := ERROR_PROC_NOT_FOUND)
              && child.calls == old(child.calls) && child.info == old(child.info)
    ensures answers.createProcessFound && call.PassedThrough() ==>
              && r.createResult == answers.created && r.lastError == answers.creationError
              && r.relay == Bypassed && r.thread == PassThrough
              && (r.reason == UnsupportedCreationMode <==> call.flags & UNSUPPORTED_CREATION_FLAGS != 0)
              && child.calls == old(child.calls) + [CreateProcess(call.flags)]
    ensures answers.createProcessFound && !call.PassedThrough() && !answers.created ==>
              && r == NO_RESULT.(lastError := answers.creationError)
              && child.calls == old(child.calls) + [CreateProcess(call.flags | CREATE_SUSPENDED)]
    ensures answers.createProcessFound && !call.PassedThrough() && answers.created ==>
              var before := old(child.calls) + [CreateProcess(call.flags | CREATE_SUSPENDED)];
              var wantsSuspended := call.flags & CREATE_SUSPENDED != 0;
              var unsafe := HelperMayStillRun(answers.target);
              && (LeftToCaller(r, before, answers.info, child.calls, child.info, answers.creationError) <==>
                    !unsafe && wantsSuspended)
              && (ResumedOnce(r, before, answers.info, child.calls, child.info, answers.creationError) <==>
                    !unsafe && !wantsSuspended && answers.resumeError.None?)
              && (EndedOnce(r, before, answers.info, child.calls, child.info) <==>
                    unsafe || (!wantsSuspended && answers.resumeError.Some?))
              && r.relayError == InjectionAttempt(answers.target).windowsError
              && (r.thread != Terminated ==> Explains(answers.target, r.relay, r.reason, r.relayError))
              && (unsafe ==> UnsafeWith(answers.target, r.reason, r.relayError))
              && (r.thread != Terminated ==>
                    (r.relay, r.reason) == (InjectionAttempt(answers.target).disposition, InjectionAttempt(answers.target).reason))
              && (unsafe ==>
                    && r.reason == InjectionAttempt(answers.target).reason
                    && r.lastError == (if r.relayError == ERROR_SUCCESS then ERROR_PROCESS_ABORTED else r.relayError)
                    && child.calls == before + ReleaseCalls(answers.info, r.lastError))
              && (!unsafe && r.thread == Terminated ==>
                    && r.reason == ResumeFailed
                    && r.lastError == answers.resumeError.value
                    && child.calls == before + [ResumeThread(answers.info.hThread, false)]
                                      + ReleaseCalls(answers.info, r.lastError))
  {
    r := NO_RESULT;
    if !answers.createProcessFound {
      r := r.(lastError := ERROR_PROC_NOT_FOUND);
      return;
    }
    var unsupportedCreationMode := call.flags & UNSUPPORTED_CREATION_FLAGS != 0;
    if call.relayBypassed || !call.wantsProcessInformation || unsupportedCreationMode {
      child.calls := child.calls + [CreateProcess(call.flags)];
      if answers.created && call.wantsProcessInformation {
        child.info := answers.info;
      }
      r := r.(createResult := answers.created, lastError := answers.creationError,
              reason := if unsupportedCreationMode then UnsupportedCreationMode else NoReason);
      return;
    }
    child.calls := child.calls + [CreateProcess(call.flags | CREATE_SUSPENDED)];
    if !answers.created {
      r := r.(lastError := answers.creationError);
      return;
    }
    child.info := answers.info;
    var obligation := new SuspendedChildObligation(child, call.flags & CREATE_SUSPENDED != 0);
    UnsafeMeansHelperMayStillRun(answers.target);
    AttemptExplained(answers.target);
    hide Explains, InjectionAttempt;
    assert Explains(answers.target, InjectionAttempt(answers.target).disposition,
                    InjectionAttempt(answers.target).reason, InjectionAttempt(answers.target).windowsError);
    ExplainsUnsafe(answers.target, InjectionAttempt(answers.target));
    r := obligation.Complete(InjectionAttempt(answers.target), answers.creationError, answers.resumeError);
    obligation.Dispose();
  }

  // ---------------------------------------------------------------- excluded images

  // wcsicmp on the characters that matter here.
  function LowerChar(c: char): char {
    if 'A' <= c <= 'Z' then ((c as int) + 32) as char else c
  }

  function Lower(s: string): (l: string)
    ensures |l| == |s|
    ensures forall i :: 0 <= i < |s| ==> l[i] == LowerChar(s[i])
  {
    seq(|s|, i requires 0 <= i < |s| => LowerChar(s[i]))
  }

  predicate IsDigit(c: char) {
    '0' <= c <= '9'
  }

  // An optional underscore, "unins", digits, and one of the two extensions.
  ghost predicate IsUninstallerName(name: string, prefix: string, word: string, digits: string, extension: string) {
    && name == prefix + word + digits + extension
    && (prefix == "" || prefix == "_")
    && Lower(word) == "unins"
    && (forall i :: 0 <= i < |digits| ==> IsDigit(digits[i]))
    && (Lower(extension) == ".exe" || Lower(extension) == ".tmp")
  }

  // wcsrchr(s, '.'), or -1.
  method LastDot(s: string) returns (dot: int)
    ensures -1 <= dot < |s|
    ensures dot >= 0 ==> s[dot] == '.'
    ensures forall i :: dot < i < |s| ==> s[i] != '.'
  {
    dot := |s| - 1;
    while dot >= 0 && s[dot] != '.'
      invariant -1 <= dot < |s|
      invariant forall i :: dot < i < |s| ==> s[i] != '.'
    {
      dot := dot - 1;
    }
  }

  /** IsInnoUninstaller accepts exactly the names `_?unins[0-9]*` with one of the two
      extensions; the scan never passes the last dot. */
  method IsInnoUninstaller(name: Option<string>) returns (r: bool)
    ensures r <==> name.Some? && exists prefix, word, digits, extension ::
              IsUninstallerName(name.value, prefix, word, digits, extension)
  {
    if name.None? {
      return false;
    }
    var s := name.value;
    var dot := LastDot(s);
    PiecesAreForced(s, dot);
    if dot < 0 || (Lower(s[dot..]) != ".exe" && Lower(s[dot..]) != ".tmp") {
      return false;
    }
    var stem := if s[0] == '_' then 1 else 0;
    // _wcsnicmp stops at the terminating NUL.
    if |s| < stem + 5 || Lower(s[stem..stem + 5]) != "unins" {
      return false;
    }
    ghost var start := stem + 5;
    WordEndsBeforeDot(s, stem, dot);
    stem := stem + 5;
    while stem != dot
      invariant start <= stem <= dot
      invariant forall i :: start <= i < stem ==> IsDigit(s[i])
    {
      if s[stem] < '0' || s[stem] > '9' {
        return false;
      }
      stem := stem + 1;
    }
    return true;
  }

  lemma WordEndsBeforeDot(s: string, stem: nat, dot: nat)
    requires stem + 5 <= |s| && Lower(s[stem..stem + 5]) == "unins"
    requires stem <= dot < |s| && s[dot] == '.'
    ensures stem + 5 <= dot
  {
    var word := s[stem..stem + 5];
    forall k | 0 <= k < 5
      ensures word[k] != '.'
    {
      assert LowerChar(word[k]) == Lower(word)[k] != '.';
    }
    assert forall i :: stem <= i < stem + 5 ==> s[i] == word[i - stem];
  }

  // What the method tests, given the position of the last dot.
  ghost predicate Accepted(s: string, dot: int)
    requires -1 <= dot < |s|
  {
    dot >= 0 && (Lower(s[dot..]) == ".exe" || Lower(s[dot..]) == ".tmp") &&
    var stem := if s[0] == '_' then 1 else 0;
    && |s| >= stem + 5 && Lower(s[stem..stem + 5]) == "unins"
    && forall i :: stem + 5 <= i < dot ==> IsDigit(s[i])
  }

  /** The pieces of a name, if there are any, can only lie where the method looks. */
  lemma PiecesAreForced(s: string, dot: int)
    requires -1 <= dot < |s| && (dot >= 0 ==> s[dot] == '.') && forall i :: dot < i < |s| ==> s[i] != '.'
    ensures Accepted(s, dot) <==>
            exists prefix, word, digits, extension :: IsUninstallerName(s, prefix, word, digits, extension)
  {
    hide Accepted, IsUninstallerName;
    if Accepted(s, dot) {
      var prefix, word, digits, extension := Pieces(s, dot);
      assert IsUninstallerName(s, prefix, word, digits, extension);
    }
    forall prefix, word, digits, extension | IsUninstallerName(s, prefix, word, digits, extension)
      ensures Accepted(s, dot)
    {
      PiecesAt(s, dot, prefix, word, digits, extension);
    }
  }

  lemma Pieces(s: string, dot: int) returns (prefix: string, word: string, digits: string, extension: string)
    requires -1 <= dot < |s| && Accepted(s, dot) && (dot >= 0 ==> s[dot] == '.')
    ensures IsUninstallerName(s, prefix, word, digits, extension)
  {
    var stem := if s[0] == '_' then 1 else 0;
    WordEndsBeforeDot(s, stem, dot);
    prefix, word, digits, extension := s[..stem], s[stem..stem + 5], s[stem + 5..dot], s[dot..];
    assert s == prefix + word + digits + extension;
    assert forall i :: 0 <= i < |digits| ==> digits[i] == s[stem + 5 + i];
    assert |prefix| == 1 ==> prefix[0] == '_';
  }

  lemma PiecesAt(s: string, dot: int, prefix: string, word: string, digits: string, extension: string)
    requires IsUninstallerName(s, prefix, word, digits, extension)
    requires -1 <= dot < |s| && (dot >= 0 ==> s[dot] == '.') && forall i :: dot < i < |s| ==> s[i] != '.'
    ensures Accepted(s, dot)
  {
    assert |word| == |Lower(word)| == 5 && |extension| == |Lower(extension)| == 4;
    assert LowerChar(extension[0]) == Lower(extension)[0] == '.';
    assert LowerChar(extension[1]) == Lower(extension)[1] != '.';
    assert LowerChar(extension[2]) == Lower(extension)[2] != '.';
    assert LowerChar(extension[3]) == Lower(extension)[3] != '.';
    var e := |s| - 4;
    assert s[e..] == extension;
    assert s[e] == extension[0] && s[e + 1] == extension[1] && s[e + 2] == extension[2] && s[e + 3] == extension[3];
    assert dot == e;
    assert LowerChar(word[0]) == Lower(word)[0] == 'u';
    assert s[|prefix|] == word[0];
    assert s[|prefix|..|prefix| + 5] == word;
    assert forall i :: |prefix| + 5 <= i < dot ==> s[i] == digits[i - |prefix| - 5];
  }
}
