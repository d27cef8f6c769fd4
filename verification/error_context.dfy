/** The client's notification list: `errorReducer`, the `addError` callback with its
    auto-dismiss timer, and the `showError`/`showWarning`/`showInfo` shortcuts. Generated
    ids and clock readings are parameters; a scheduled dismissal is returned rather than
    run. */
module ErrorContext {
  import opened Collections
  import opened Persons
  import Text

  datatype ErrorType = Error | Warning | Info

  /** The fields a caller supplies: everything but the id and the timestamp. */
  datatype ErrorDraft = ErrorDraft(
    message: string,
    kind: ErrorType,
    title: Option<string>,
    dismissible: Option<bool>,
    duration: Option<int>)

  datatype AppError = AppError(
    id: string,
    message: string,
    kind: ErrorType,
    title: Option<string>,
    timestamp: Time,
    dismissible: Option<bool>,
    duration: Option<int>)

  datatype ErrorState = ErrorState(errors: seq<AppError>, globalError: Option<AppError>)

  datatype ErrorAction =
    | AddError(draft: ErrorDraft)
    | RemoveError(id: string)
    | ClearErrors
    | SetGlobalError(error: Option<AppError>)
      /** An action whose type no case of the reducer names. */
    | Unrecognised

  const InitialErrorState := ErrorState([], None)

  /** `Date.now().toString() + Math.random().toString(36).substr(2, 9)`, given the clock
      reading and the base-36 digits after the point of the random number. */
  function GeneratedId(clock: nat, fraction: string): string
  {
    Text.NatToString(clock) + (if |fraction| <= 9 then fraction else fraction[..9])
  }

  function Stamped(d: ErrorDraft, id: string, now: Time): (e: AppError)
  {
    AppError(id, d.message, d.kind, d.title, now, d.dismissible, d.duration)
  }

  function IdsOfErrors(es: seq<AppError>): set<string>
  {
    set e | e in es :: e.id
  }

  /** `errorReducer`; `freshId` and `now` are what an `ADD_ERROR` generates. */
  function Reduce(s: ErrorState, a: ErrorAction, freshId: string, now: Time): ErrorState
  {
    match a
    case AddError(d) => s.(errors := s.errors + [Stamped(d, freshId, now)])
    case RemoveError(id) => s.(errors := Filter(s.errors, (e: AppError) => e.id != id))
    case ClearErrors => s.(errors := [])
    case SetGlobalError(g) => s.(globalError := g)
    case Unrecognised => s
  }

  /** `ADD_ERROR` appends one error carrying the draft, the fresh id and the time, and
      changes nothing else. */
  lemma AddErrorEffect(s: ErrorState, d: ErrorDraft, freshId: string, now: Time)
    ensures var r := Reduce(s, AddError(d), freshId, now);
      && |r.errors| == |s.errors| + 1
      && r.errors[..|s.errors|] == s.errors
      && r.globalError == s.globalError
      && r.errors[|s.errors|].id == freshId && r.errors[|s.errors|].timestamp == now
      && r.errors[|s.errors|] == AppError(freshId, d.message, d.kind, d.title, now, d.dismissible, d.duration)
  {
  }

  /** `REMOVE_ERROR` keeps exactly the errors with other ids, as many times as before and in
      their order; an id no error carries changes nothing. */
  lemma RemoveErrorEffect(s: ErrorState, id: string)
    ensures var r := Reduce(s, RemoveError(id), "", 0);
      && (forall e :: e in r.errors <==> e in s.errors && e.id != id)
      && (forall e :: Count(r.errors, e) == if e.id == id then 0 else Count(s.errors, e))
      && IsSubsequence(r.errors, s.errors)
      && (id !in IdsOfErrors(s.errors) ==> r == s)
      && r.globalError == s.globalError
  {
    var keep := (e: AppError) => e.id != id;
    forall e ensures Count(Filter(s.errors, keep), e) == if e.id == id then 0 else Count(s.errors, e) {
      FilterCount(s.errors, keep, e);
    }
    FilterIsSubsequence(s.errors, keep);
    if id !in IdsOfErrors(s.errors) {
      FilterKeepsAll(s.errors, keep);
    }
  }

  /** Adding an error under an id no error carries and removing that id restores the
      list. */
  lemma AddThenRemove(s: ErrorState, d: ErrorDraft, freshId: string, now: Time)
    requires freshId !in IdsOfErrors(s.errors)
    ensures Reduce(Reduce(s, AddError(d), freshId, now), RemoveError(freshId), freshId, now) == s
  {
    var keep := (e: AppError) => e.id != freshId;
    FilterAppend(s.errors, [Stamped(d, freshId, now)], keep);
    FilterKeepsAll(s.errors, keep);
    assert Filter([Stamped(d, freshId, now)], keep) == [];
  }

  /** `CLEAR_ERRORS` and `SET_GLOBAL_ERROR` touch one field each; an unrecognised action
      changes nothing. */
  lemma ReducerFieldEffects(s: ErrorState, a: ErrorAction, freshId: string, now: Time)
    ensures a.ClearErrors? ==> Reduce(s, a, freshId, now) == ErrorState([], s.globalError)
    ensures a.SetGlobalError? ==> Reduce(s, a, freshId, now) == ErrorState(s.errors, a.error)
    ensures a.Unrecognised? ==> Reduce(s, a, freshId, now) == s
  {
  }

  /** What `addError` leaves behind: the new state, the id it returns, and the
      `REMOVE_ERROR` it schedules (the id and the delay), if any. */
  datatype Added = Added(state: ErrorState, returned: string, dismissal: Option<(string, int)>)

  /** A draft whose `duration` is truthy and positive gets a dismissal timer. */
  predicate AutoDismissed(d: ErrorDraft)
  {
    d.duration.Some? && d.duration.value > 0
  }

  /** `addError` as written: the reducer stores the error under one generated id, and the
      callback returns, and schedules the dismissal of, a second one. */
  function AddErrorAsWritten(s: ErrorState, d: ErrorDraft, storedId: string, returnedId: string, now: Time): (a: Added)
    ensures a.state.errors == s.errors + [Stamped(d, storedId, now)]
    ensures a.returned == returnedId
    ensures a.dismissal.Some? <==> AutoDismissed(d)
    ensures a.dismissal.Some? ==> a.dismissal.value == (returnedId, d.duration.value)
  {
    Added(Reduce(s, AddError(d), storedId, now), returnedId,
          if AutoDismissed(d) then Some((returnedId, d.duration.value)) else None)
  }

  /** As written, the scheduled dismissal misses the error it was meant for whenever the two
      generated ids differ: the error stays in the list. */
  lemma AutoDismissMisses(s: ErrorState, d: ErrorDraft, storedId: string, returnedId: string, now: Time)
    requires AutoDismissed(d) && storedId != returnedId
    ensures var a := AddErrorAsWritten(s, d, storedId, returnedId, now);
      Stamped(d, storedId, now) in Reduce(a.state, RemoveError(a.dismissal.value.0), storedId, now).errors
  {
    var a := AddErrorAsWritten(s, d, storedId, returnedId, now);
    var e := Stamped(d, storedId, now);
    assert e in a.state.errors by {
      assert a.state.errors[|s.errors|] == e;
    }
  }

  /** `addError` with one generated id used for the stored error, the returned id and the
      dismissal. */
  function AddErrorWithId(s: ErrorState, d: ErrorDraft, id: string, now: Time): (a: Added)
    ensures a.state.errors == s.errors + [Stamped(d, id, now)]
    ensures a.returned == id
    ensures a.dismissal.Some? <==> AutoDismissed(d)
    ensures a.dismissal.Some? ==> a.dismissal.value == (id, d.duration.value)
  {
    Added(Reduce(s, AddError(d), id, now), id, if AutoDismissed(d) then Some((id, d.duration.value)) else None)
  }

  /** With a single id, the dismissal removes exactly the error that was added. */
  lemma AutoDismissRemoves(s: ErrorState, d: ErrorDraft, id: string, now: Time)
    requires AutoDismissed(d) && id !in IdsOfErrors(s.errors)
    ensures var a := AddErrorWithId(s, d, id, now);
      Reduce(a.state, RemoveError(a.dismissal.value.0), id, now) == s
  {
    AddThenRemove(s, d, id, now);
  }

  /** The optional fields a caller of the shortcuts may set. */
  datatype ShowOptions = ShowOptions(title: Option<string>, dismissible: Option<bool>, duration: Option<int>)

  function Override<T>(default: Option<T>, given: Option<T>): Option<T>
  {
    if given.Some? then given else default
  }

  /** `{message, type, dismissible: true, ...options}`. */
  function ShowDraft(message: string, kind: ErrorType, options: ShowOptions): ErrorDraft
  {
    ErrorDraft(message, kind, options.title, Override(Some(true), options.dismissible), options.duration)
  }

  /** `{message, type: 'info', dismissible: true, duration: 5000, ...options}`. */
  function ShowInfoDraft(message: string, options: ShowOptions): ErrorDraft
  {
    ErrorDraft(message, Info, options.title, Override(Some(true), options.dismissible),
               Override(Some(5000), options.duration))
  }

  /** The error a shortcut stores: the message with the shortcut's type, the id the reducer
      generates and the time, dismissible unless the caller says otherwise, and with the
      caller's title and the given duration. */
  predicate ShownAs(e: AppError, message: string, kind: ErrorType, options: ShowOptions,
                    duration: Option<int>, id: string, now: Time)
  {
    && e.id == id && e.message == message && e.kind == kind && e.timestamp == now
    && e.title == options.title
    && e.dismissible == (if options.dismissible.Some? then options.dismissible else Some(true))
    && e.duration == duration
  }

  /** A timer for `duration` is scheduled exactly when it is positive, and it removes `id`. */
  predicate DismissesAfter(dismissal: Option<(string, int)>, duration: Option<int>, id: string)
  {
    if duration.Some? && duration.value > 0 then dismissal == Some((id, duration.value))
    else dismissal.None?
  }

  /** `showError` as written: `storedId` is the id the reducer generates and `returnedId` the
      one `addError` returns and dismisses. */
  function ShowError(s: ErrorState, message: string, options: ShowOptions,
                     storedId: string, returnedId: string, now: Time): (a: Added)
    ensures |a.state.errors| == |s.errors| + 1 && a.state.errors[..|s.errors|] == s.errors
    ensures ShownAs(a.state.errors[|s.errors|], message, Error, options, options.duration, storedId, now)
    ensures a.state.globalError == s.globalError
    ensures a.returned == returnedId
    ensures DismissesAfter(a.dismissal, options.duration, returnedId)
  {
    AddErrorAsWritten(s, ShowDraft(message, Error, options), storedId, returnedId, now)
  }

  /** `showWarning` as written. */
  function ShowWarning(s: ErrorState, message: string, options: ShowOptions,
                       storedId: string, returnedId: string, now: Time): (a: Added)
    ensures |a.state.errors| == |s.errors| + 1 && a.state.errors[..|s.errors|] == s.errors
    ensures ShownAs(a.state.errors[|s.errors|], message, Warning, options, options.duration, storedId, now)
    ensures a.state.globalError == s.globalError
    ensures a.returned == returnedId
    ensures DismissesAfter(a.dismissal, options.duration, returnedId)
  {
    AddErrorAsWritten(s, ShowDraft(message, Warning, options), storedId, returnedId, now)
  }

  /** `showInfo` as written: without a duration from the caller, the message is given 5000
      ms. */
  function ShowInfo(s: ErrorState, message: string, options: ShowOptions,
                    storedId: string, returnedId: string, now: Time): (a: Added)
    ensures |a.state.errors| == |s.errors| + 1 && a.state.errors[..|s.errors|] == s.errors
    ensures ShownAs(a.state.errors[|s.errors|], message, Info, options,
                    Override(Some(5000), options.duration), storedId, now)
    ensures a.state.globalError == s.globalError
    ensures a.returned == returnedId
    ensures options.duration.None? ==> a.dismissal == Some((returnedId, 5000))
    ensures DismissesAfter(a.dismissal, Override(Some(5000), options.duration), returnedId)
  {
    AddErrorAsWritten(s, ShowInfoDraft(message, options), storedId, returnedId, now)
  }

  /** Ids generated in the same millisecond from different random suffixes (each at most
      nine base-36 digits) differ. */
  lemma GeneratedIdsDiffer(clock: nat, fraction1: string, fraction2: string)
    requires |fraction1| <= 9 && |fraction2| <= 9 && fraction1 != fraction2
    ensures GeneratedId(clock, fraction1) != GeneratedId(clock, fraction2)
  {
    var prefix := Text.NatToString(clock);
    assert (prefix + fraction1)[|prefix|..] == fraction1;
    assert (prefix + fraction2)[|prefix|..] == fraction2;
  }

  /** As written, an info message shown without a duration is not dismissed: when the
      reducer's id and the returned id come from different random suffixes, the message is
      still in the list after its 5000 ms dismissal has run. */
  lemma ShowInfoStays(s: ErrorState, message: string, options: ShowOptions,
                      clock: nat, fraction1: string, fraction2: string, now: Time)
    requires options.duration.None?
    requires |fraction1| <= 9 && |fraction2| <= 9 && fraction1 != fraction2
    ensures var storedId, returnedId := GeneratedId(clock, fraction1), GeneratedId(clock, fraction2);
      var a := ShowInfo(s, message, options, storedId, returnedId, now);
      && a.dismissal == Some((returnedId, 5000))
      && a.state.errors[|s.errors|] in Reduce(a.state, RemoveError(returnedId), storedId, now).errors
  {
    var storedId, returnedId := GeneratedId(clock, fraction1), GeneratedId(clock, fraction2);
    GeneratedIdsDiffer(clock, fraction1, fraction2);
    AutoDismissMisses(s, ShowInfoDraft(message, options), storedId, returnedId, now);
  }

  /** `showError` over the corrected `addError`: the as-written shortcut with both ids equal,
      and its dismissal, if any, removes the error it added. */
  function ShowErrorWithId(s: ErrorState, message: string, options: ShowOptions, id: string, now: Time): (a: Added)
    ensures a == ShowError(s, message, options, id, id, now)
    ensures a.dismissal.Some? && id !in IdsOfErrors(s.errors) ==>
      Reduce(a.state, RemoveError(a.dismissal.value.0), id, now) == s
  {
    var d := ShowDraft(message, Error, options);
    if AutoDismissed(d) && id !in IdsOfErrors(s.errors) then
      AutoDismissRemoves(s, d, id, now);
      AddErrorWithId(s, d, id, now)
    else
      AddErrorWithId(s, d, id, now)
  }

  /** `showWarning` over the corrected `addError`. */
  function ShowWarningWithId(s: ErrorState, message: string, options: ShowOptions, id: string, now: Time): (a: Added)
    ensures a == ShowWarning(s, message, options, id, id, now)
    ensures a.dismissal.Some? && id !in IdsOfErrors(s.errors) ==>
      Reduce(a.state, RemoveError(a.dismissal.value.0), id, now) == s
  {
    var d := ShowDraft(message, Warning, options);
    if AutoDismissed(d) && id !in IdsOfErrors(s.errors) then
      AutoDismissRemoves(s, d, id, now);
      AddErrorWithId(s, d, id, now)
    else
      AddErrorWithId(s, d, id, now)
  }

  /** `showInfo` over the corrected `addError`: without a duration from the caller, the
      message is removed 5000 ms after it is shown. */
  function ShowInfoWithId(s: ErrorState, message: string, options: ShowOptions, id: string, now: Time): (a: Added)
    ensures a == ShowInfo(s, message, options, id, id, now)
    ensures a.dismissal.Some? && id !in IdsOfErrors(s.errors) ==>
      Reduce(a.state, RemoveError(a.dismissal.value.0), id, now) == s
    ensures options.duration.None? && id !in IdsOfErrors(s.errors) ==>
      a.dismissal == Some((id, 5000)) && Reduce(a.state, RemoveError(id), id, now) == s
  {
    var d := ShowInfoDraft(message, options);
    if AutoDismissed(d) && id !in IdsOfErrors(s.errors) then
      AutoDismissRemoves(s, d, id, now);
      AddErrorWithId(s, d, id, now)
    else
      AddErrorWithId(s, d, id, now)
  }
}
