/** The confirmation that guards a bulk operation, and its safety over every sequence of calls. */
module BulkConfirmation {
  import opened Wrappers
  import opened Bounds
  import opened Text

  const TYPED_CONFIRMATION_THRESHOLD: nat := 25

  datatype State = AwaitingConfirmation | Cancelled | Confirmed

  datatype Validation =
    | NoItems
    | PreviewRequired
    | Ready
    | TypedCountRequired(expected: nat)
    | InvalidTypedCount(expected: nat, entered: Option<nat>)
    | AlreadyCancelled
    | AlreadyConfirmed

  /** The fields of a confirmation as a value. */
  datatype Fields = Fields(itemCount: nat, previewComplete: bool, typedCount: string, state: State)

  datatype Call = MarkPreviewComplete | SetTypedCount(text: string) | Confirm | Cancel

  /** The count a text stands for once trimmed. */
  function Entered(text: string): Option<nat> {
    ParseUnsigned(Trim(text), 0xFFFF_FFFF_FFFF_FFFF)
  }

  /** Whether the fields permit confirming: this is what the guard is for. */
  predicate MayConfirm(f: Fields) {
    && f.itemCount > 0 && f.previewComplete
    && (f.itemCount > 25 ==> Entered(f.typedCount) == Some(f.itemCount))
  }

  /** One call: nothing changes once the confirmation is cancelled or confirmed. */
  function Step(f: Fields, call: Call): Fields {
    if f.state != AwaitingConfirmation then f
    else match call
      case MarkPreviewComplete => f.(previewComplete := true)
      case SetTypedCount(text) => f.(typedCount := text)
      case Confirm => if MayConfirm(f) then f.(state := Confirmed) else f
      case Cancel => f.(state := Cancelled)
  }

  function Run(f: Fields, calls: seq<Call>): Fields {
    if calls == [] then f else Step(Run(f, calls[..|calls| - 1]), calls[|calls| - 1])
  }

  function New(itemCount: nat): Fields {
    Fields(itemCount, false, "", AwaitingConfirmation)
  }

  class Confirmation {
    var itemCount: nat
    var previewComplete: bool
    var typedCount: string
    var state: State

    function View(): Fields
      reads this
    {
      Fields(itemCount, previewComplete, typedCount, state)
    }

    constructor (count: nat)
      ensures View() == New(count)
    {
      itemCount := count;
      previewComplete := false;
      typedCount := "";
      state := AwaitingConfirmation;
    }

    predicate RequiresTypedCount()
      reads this
    {
      itemCount > TYPED_CONFIRMATION_THRESHOLD
    }

    method MarkPreviewComplete()
      modifies this
      ensures View() == Step(old(View()), Call.MarkPreviewComplete)
    {
      if state == AwaitingConfirmation { previewComplete := true; }
    }

    method SetTypedCount(value: string)
      modifies this
      ensures View() == Step(old(View()), Call.SetTypedCount(value))
    {
      if state == AwaitingConfirmation { typedCount := value; }
    }

    /** The guard's verdict is Ready exactly when the confirmation is open and may be confirmed. */
    function Validate(): (v: Validation)
      reads this
      ensures v == Ready <==> state == AwaitingConfirmation && MayConfirm(View())
      ensures v == AlreadyConfirmed <==> state == Confirmed
      ensures v == AlreadyCancelled <==> state == Cancelled
      ensures v == NoItems <==> state == AwaitingConfirmation && itemCount == 0
      ensures v == PreviewRequired <==> state == AwaitingConfirmation && itemCount > 0 && !previewComplete
      ensures v.TypedCountRequired? <==>
                state == AwaitingConfirmation && itemCount > 25 && previewComplete && Trim(typedCount) == ""
      ensures v.TypedCountRequired? ==> v.expected == itemCount
      ensures v.InvalidTypedCount? <==>
                state == AwaitingConfirmation && itemCount > 25 && previewComplete && Trim(typedCount) != ""
                && Entered(typedCount) != Some(itemCount)
      ensures v.InvalidTypedCount? ==> v.expected == itemCount && v.entered == Entered(typedCount)
    {
      match state
      case Cancelled => AlreadyCancelled
      case Confirmed => AlreadyConfirmed
      case AwaitingConfirmation =>
        if itemCount == 0 then NoItems
        else if !previewComplete then PreviewRequired
        else if !RequiresTypedCount() then Ready
        else if Trim(typedCount) == "" then TypedCountRequired(itemCount)
        else
          var entered := ParseUnsigned(Trim(typedCount), USIZE_MAX);
          if entered == Some(itemCount) then Ready else InvalidTypedCount(itemCount, entered)
    }

    method Confirm() returns (r: Result<(), Validation>)
      modifies this
      ensures View() == Step(old(View()), Call.Confirm)
      ensures r.Ok? <==> old(state) == AwaitingConfirmation && state == Confirmed
      ensures r.Err? ==> r.error == old(Validate()) && View() == old(View())
    {
      var validation := Validate();
      if validation == Ready {
        state := Confirmed;
        r := Ok(());
      } else {
        r := Err(validation);
      }
    }

    method Cancel()
      modifies this
      ensures View() == Step(old(View()), Call.Cancel)
    {
      if state == AwaitingConfirmation { state := Cancelled; }
    }
  }

  // ----- Every sequence of calls -----

  /** The text of the last `SetTypedCount`, if there was one. */
  function LastTyped(calls: seq<Call>): string {
    if calls == [] then ""
    else if calls[|calls| - 1].SetTypedCount? then calls[|calls| - 1].text
    else LastTyped(calls[..|calls| - 1])
  }

  /** Call `j` confirms: it comes after the preview and before any cancellation, there is something
      to confirm, and above the threshold the text typed last is the count. */
  ghost predicate Confirms(count: nat, calls: seq<Call>, j: nat) {
    && j < |calls| && calls[j] == Confirm
    && count > 0 && MarkPreviewComplete in calls[..j] && Cancel !in calls[..j]
    && (count > 25 ==> Entered(LastTyped(calls[..j])) == Some(count))
  }

  ghost predicate SomeCallConfirms(count: nat, calls: seq<Call>) {
    exists j :: 0 <= j < |calls| && Confirms(count, calls, j)
  }

  /** While nothing has confirmed or cancelled, the fields record the calls so far. */
  ghost predicate Records(count: nat, calls: seq<Call>, f: Fields) {
    && f.itemCount == count
    && (f.state == Confirmed <==> SomeCallConfirms(count, calls))
    && (f.state == AwaitingConfirmation ==>
          && Cancel !in calls && f.typedCount == LastTyped(calls)
          && (f.previewComplete <==> MarkPreviewComplete in calls))
    && (f.state == Cancelled ==> Cancel in calls)
  }

  lemma ConfirmsLater(count: nat, calls: seq<Call>, call: Call)
    ensures SomeCallConfirms(count, calls + [call]) <==>
            SomeCallConfirms(count, calls) || Confirms(count, calls + [call], |calls|)
  {
    var more := calls + [call];
    forall j | 0 <= j < |calls|
      ensures Confirms(count, more, j) <==> Confirms(count, calls, j)
    {
      assert more[..j] == calls[..j];
    }
    if SomeCallConfirms(count, calls) {
      var j :| 0 <= j < |calls| && Confirms(count, calls, j);
      assert Confirms(count, more, j);
    }
  }

  lemma RecordsStep(count: nat, calls: seq<Call>, f: Fields, call: Call)
    requires Records(count, calls, f)
    ensures Records(count, calls + [call], Step(f, call))
  {
    var more := calls + [call];
    ConfirmsLater(count, calls, call);
    assert more[..|calls|] == calls;
    assert forall c :: c in more <==> c in calls || c == call;
  }

  lemma {:induction false} RunRecords(count: nat, calls: seq<Call>)
    ensures Records(count, calls, Run(New(count), calls))
  {
    if calls != [] {
      var n := |calls| - 1;
      RunRecords(count, calls[..n]);
      RecordsStep(count, calls[..n], Run(New(count), calls[..n]), calls[n]);
      assert calls[..n] + [calls[n]] == calls;
    }
  }

  /** A confirmation ends up confirmed exactly when some call of the sequence rightly confirms it. */
  lemma ConfirmedExactly(count: nat, calls: seq<Call>)
    ensures Run(New(count), calls).state == Confirmed <==> SomeCallConfirms(count, calls)
  {
    RunRecords(count, calls);
  }

  /** A confirmed record shows it: it has items, its preview is complete, and the text it holds is the
      count where one is needed. */
  lemma {:induction false} ConfirmedIsSafe(count: nat, calls: seq<Call>)
    ensures var f := Run(New(count), calls);
            f.itemCount == count && (f.state == Confirmed ==> MayConfirm(f))
  {
    if calls != [] { ConfirmedIsSafe(count, calls[..|calls| - 1]); }
  }

  /** Confirmed and cancelled are final: no later call changes any field. */
  lemma {:induction false} FinalStatesAbsorb(f: Fields, calls: seq<Call>, more: seq<Call>)
    requires Run(f, calls).state != AwaitingConfirmation
    ensures Run(f, calls + more) == Run(f, calls)
  {
    if more == [] {
      assert calls + more == calls;
    } else {
      FinalStatesAbsorb(f, calls, more[..|more| - 1]);
      assert (calls + more)[..|calls + more| - 1] == calls + more[..|more| - 1];
    }
  }

  /** Typing the printed count, with any white space around it, after the preview makes an open
      confirmation ready: the next Confirm confirms it. */
  lemma TypingTheCountConfirms(f: Fields, before: string, after: string)
    requires f.state == AwaitingConfirmation && f.previewComplete && 0 < f.itemCount <= USIZE_MAX
    requires AllWhitespace(before) && AllWhitespace(after)
    ensures var typed := Step(f, SetTypedCount(before + Decimal(f.itemCount) + after));
            MayConfirm(typed) && Step(typed, Confirm).state == Confirmed
  {
    TrimPrinted(before, f.itemCount, after);
    ParsePrinted(f.itemCount, USIZE_MAX);
  }
}
