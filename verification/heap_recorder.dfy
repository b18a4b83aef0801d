/** The start/end pairing of heap allocation recordings in the profiler's native
    extension (`heap_recorder.c`). All calls happen under Ruby's global VM lock, so
    they are modelled as sequential transitions on an immutable recorder. */
module HeapRecorder {
  import opened Wrappers

  /** C `unsigned int`, as used for sample weights. */
  newtype u32 = x: int | 0 <= x < 0x1_0000_0000

  /** A Ruby `VALUE`: `Qnil`, or some object. */
  datatype Value = Qnil | RObject(id: nat)

  /** `partial_heap_recording`: an object other than `Qnil` marks it as a recording that
      was started and not yet ended. */
  datatype PartialRecording = PartialRecording(obj: Value, weight: u32)

  /** `struct heap_recorder`. */
  datatype Recorder = Recorder(activeRecording: PartialRecording)

  /** The message `end_heap_allocation_recording` raises when nothing was started. */
  const NotStartedError: string := "Ended a heap recording that was not started"

  /** A recording has been started and not yet ended. */
  predicate IsActive(h: Recorder)
  {
    h.activeRecording.obj != Qnil
  }

  /** `heap_recorder_new`: no recording is active. */
  function New(): (h: Recorder)
    ensures !IsActive(h)
  {
    Recorder(PartialRecording(Qnil, 0))
  }

  /** `start_heap_allocation_recording(recorder, new_obj, weight)`: whatever was active
      before is silently replaced; starting with `Qnil` leaves nothing active. */
  function Start(h: Recorder, obj: Value, weight: u32): (r: Recorder)
    ensures r.activeRecording == PartialRecording(obj, weight)
    ensures IsActive(r) <==> obj != Qnil
  {
    Recorder(PartialRecording(obj, weight))
  }

  /** `end_heap_allocation_recording(recorder, locations)`: raises when no recording is
      active; otherwise marks the recording as ended. */
  function End(h: Recorder): (r: Result<Recorder, string>)
    ensures r.Failure? <==> !IsActive(h)
    ensures r.Failure? ==> r.error == NotStartedError
    ensures r.Success? ==> !IsActive(r.value)
  {
    if h.activeRecording.obj == Qnil then Failure(NotStartedError)
    else Success(h.(activeRecording := h.activeRecording.(obj := Qnil)))
  }

  /** Starting with a real object and then ending always succeeds, from any state. */
  lemma StartThenEnd(h: Recorder, obj: Value, weight: u32)
    requires obj != Qnil
    ensures End(Start(h, obj, weight)).Success?
  {
  }

  /** A second `start` without an `end` in between overwrites the first without error:
      nothing of the earlier recording survives. */
  lemma StartOverwrites(h: Recorder, first: Value, firstWeight: u32, obj: Value, weight: u32)
    ensures Start(Start(h, first, firstWeight), obj, weight) == Start(h, obj, weight)
    ensures End(Start(Start(h, first, firstWeight), obj, weight)).Success? <==> obj != Qnil
  {
  }

  /** `start; end; end`: the second `end` raises. */
  lemma EndTwiceRaises(h: Recorder, obj: Value, weight: u32)
    ensures End(Start(h, obj, weight)).Success? ==>
              End(End(Start(h, obj, weight)).value) == Failure(NotStartedError)
  {
  }

  /** Starting with `Qnil` leaves the recorder inactive, so the next `end` raises. */
  lemma StartNilThenEndRaises(h: Recorder, weight: u32)
    ensures End(Start(h, Qnil, weight)) == Failure(NotStartedError)
  {
  }

  // ---------------------------------------------------------------------------
  // Sequences of calls

  datatype Call = StartCall(obj: Value, weight: u32) | EndCall

  /** Makes the calls in order, stopping at the first `end` that raises. */
  function Run(h: Recorder, calls: seq<Call>): (r: Result<Recorder, string>)
    decreases |calls|
  {
    if |calls| == 0 then Success(h)
    else
      match calls[0]
      case StartCall(obj, weight) => Run(Start(h, obj, weight), calls[1..])
      case EndCall =>
        match End(h)
        case Failure(e) => Failure(e)
        case Success(h') => Run(h', calls[1..])
  }

  /** Whether a recording is open after `calls`, read off the last call alone: an `end`
      closes, a `start` opens exactly when its object is not `Qnil`, and with no calls
      it is whatever `h` says. */
  predicate OpenAfter(h: Recorder, calls: seq<Call>)
  {
    if |calls| == 0 then IsActive(h)
    else
      match calls[|calls| - 1]
      case StartCall(obj, _) => obj != Qnil
      case EndCall => false
  }

  /** The calls succeed exactly when every `end` comes while a recording is open, and
      then the recorder is active exactly when the last call left one open. */
  lemma {:induction false} RunMatchesOpenAfter(h: Recorder, calls: seq<Call>)
    ensures Run(h, calls).Success? <==>
              forall i :: 0 <= i < |calls| && calls[i] == EndCall ==> OpenAfter(h, calls[..i])
    ensures Run(h, calls).Success? ==> (IsActive(Run(h, calls).value) <==> OpenAfter(h, calls))
    decreases |calls|
  {
    if |calls| > 0 {
      var rest := calls[1..];
      var h' := match calls[0]
                case StartCall(obj, weight) => Start(h, obj, weight)
                case EndCall => if IsActive(h) then End(h).value else h;
      RunMatchesOpenAfter(h', rest);
      // the open state after a prefix of `calls` is the open state after the same prefix
      // of `rest`, starting from the state the first call left
      forall i | 1 <= i <= |calls|
        ensures OpenAfter(h, calls[..i]) <==> OpenAfter(h', rest[..i - 1])
      {
        assert calls[..i][i - 1] == calls[i - 1];
        if i > 1 {
          assert rest[..i - 1][i - 2] == calls[i - 1];
        }
      }
      assert calls[..|calls|] == calls;
      assert rest[..|rest|] == rest;
      if calls[0] == EndCall && !IsActive(h) {
        assert calls[..0] == [];
      } else {
        assert forall j :: 0 <= j < |rest| ==> rest[j] == calls[j + 1];
      }
    }
  }
}
