/** Keyboard input: a FIFO queue of the frame's input events, and a tracker of the state
    of every key seen, one entry per key code, from which released keys are dropped once
    a frame. */
module Input {
  import opened Common

  /** winit's `VirtualKeyCode`; only its identity matters here. */
  type KeyCode = nat

  /** winit's `ElementState`. */
  datatype ElementState = Pressed | Released

  /** winit's `KeyboardInput`, reduced to the fields the tracker reads. */
  datatype KeyboardInput = KeyboardInput(state: ElementState, virtualKeycode: Option<KeyCode>)

  /** `InputEventQueue`: a `VecDeque` used as a FIFO. */
  class InputEventQueue {
    var queue: seq<KeyboardInput>

    /** `InputEventQueue::default`: empty. */
    constructor Default()
      ensures queue == []
    {
      queue := [];
    }

    /** `push_event`: appends at the back. */
    method PushEvent(inputEvent: KeyboardInput)
      modifies this
      ensures queue == old(queue) + [inputEvent]
    {
      queue := queue + [inputEvent];
    }

    /** `pop_event`: takes from the front, or `None` when the queue is empty. */
    method PopEvent() returns (r: Option<KeyboardInput>)
      modifies this
      ensures old(queue) == [] ==> r == None && queue == []
      ensures old(queue) != [] ==> r == Some(old(queue)[0]) && queue == old(queue)[1..]
    {
      if queue == [] {
        r := None;
      } else {
        r := Some(queue[0]);
        queue := queue[1..];
      }
    }
  }

  /** A tracked key and its latest state. */
  type Entry = (KeyCode, ElementState)

  /** No key code appears twice. */
  ghost predicate DistinctKeys(keys: seq<Entry>)
  {
    forall i, j :: 0 <= i < j < |keys| ==> keys[i].0 != keys[j].0
  }

  /** `keys.iter_mut().find(|(keycode, _)| keycode == key)`: the position of the first
      entry for `key`, if any. */
  function FindKey(keys: seq<Entry>, key: KeyCode): (r: Option<nat>)
    ensures r.Some? ==>
      && r.value < |keys| && keys[r.value].0 == key
      && forall j :: 0 <= j < r.value ==> keys[j].0 != key
    ensures r.None? ==> forall j :: 0 <= j < |keys| ==> keys[j].0 != key
  {
    if |keys| == 0 then None
    else if keys[0].0 == key then Some(0)
    else match FindKey(keys[1..], key)
      case None => None
      case Some(i) => Some(i + 1)
  }

  /** The entries that `maintain` keeps: those not `Released`, in their order. */
  function Unreleased(keys: seq<Entry>): seq<Entry>
  {
    if |keys| == 0 then []
    else if keys[|keys| - 1].1 == Released then Unreleased(keys[..|keys| - 1])
    else Unreleased(keys[..|keys| - 1]) + [keys[|keys| - 1]]
  }

  /** `maintain` keeps exactly the entries that are not released: every kept entry is an
      entry of the input that is not released, and every such entry is kept. */
  lemma {:induction false} UnreleasedKeeps(keys: seq<Entry>)
    ensures forall e :: e in Unreleased(keys) <==> e in keys && e.1 != Released
    ensures |Unreleased(keys)| <= |keys|
  {
    if |keys| > 0 {
      var init := keys[..|keys| - 1];
      UnreleasedKeeps(init);
      assert keys == init + [keys[|keys| - 1]];
    }
  }

  /** `maintain` keeps the kept entries in their order: they form a subsequence of the
      input, so distinct key codes stay distinct. */
  lemma {:induction false} UnreleasedDistinct(keys: seq<Entry>)
    requires DistinctKeys(keys)
    ensures DistinctKeys(Unreleased(keys))
  {
    if |keys| > 0 {
      var init := keys[..|keys| - 1];
      assert DistinctKeys(init);
      UnreleasedDistinct(init);
      UnreleasedKeeps(init);
      var last := keys[|keys| - 1];
      forall e | e in Unreleased(init)
        ensures e.0 != last.0
      {
        var i :| 0 <= i < |init| && init[i] == e;
      }
    }
  }

  /** `InputTracker`: the latest state of every key seen, one entry per key code. */
  class InputTracker {
    var keys: seq<Entry>

    ghost predicate Valid()
      reads this
    {
      DistinctKeys(keys)
    }

    /** `InputTracker::default`: no keys. */
    constructor Default()
      ensures Valid() && keys == []
    {
      keys := [];
    }

    /** `consume_input_event`: an event without a key code is ignored; the state of a
        key already tracked is replaced in place; a new key is appended with its state.
        Key codes stay distinct. */
    method ConsumeInputEvent(event: KeyboardInput)
      requires Valid()
      modifies this
      ensures Valid()
      ensures event.virtualKeycode.None? ==> keys == old(keys)
      ensures event.virtualKeycode.Some? ==>
        match FindKey(old(keys), event.virtualKeycode.value)
        case Some(i) => keys == old(keys)[i := (event.virtualKeycode.value, event.state)]
        case None => keys == old(keys) + [(event.virtualKeycode.value, event.state)]
    {
      if event.virtualKeycode.Some? {
        var virtualKeycode := event.virtualKeycode.value;
        var entry := FindKey(keys, virtualKeycode);
        if entry.Some? {
          keys := keys[entry.value := (virtualKeycode, event.state)];
        } else {
          keys := keys + [(virtualKeycode, event.state)];
        }
      }
    }

    /** `maintain`: walks the entries from the back and removes every released one. */
    method Maintain()
      requires Valid()
      modifies this
      ensures Valid()
      ensures keys == Unreleased(old(keys))
    {
      ghost var original := keys;
      var index := |keys|;
      while index > 0
        invariant 0 <= index <= |original|
        invariant keys == original[..index] + Unreleased(original[index..])
        decreases index
      {
        index := index - 1;
        if keys[index].1 == Released {
          keys := keys[..index] + keys[index + 1..];
        }
        UnreleasedFront(original, index);
      }
      UnreleasedDistinct(original);
    }

    /** `iter`: the entries, in their stored order. */
    function Iter(): (r: seq<Entry>)
      reads this
      ensures |r| == |keys| && forall i :: 0 <= i < |r| ==> r[i] == keys[i]
    {
      keys
    }
  }

  /** Filtering a suffix from one entry earlier: the entry is kept in front unless it is
      released. */
  lemma {:induction false} UnreleasedFront(s: seq<Entry>, i: nat)
    requires i < |s|
    ensures Unreleased(s[i..]) == (if s[i].1 == Released then [] else [s[i]]) + Unreleased(s[i + 1..])
    decreases |s| - i
  {
    if i + 1 == |s| {
      assert s[i..][..0] == [];
    } else {
      UnreleasedFront(s[..|s| - 1], i);
      assert s[i..][..|s[i..]| - 1] == s[..|s| - 1][i..];
      assert s[i + 1..][..|s[i + 1..]| - 1] == s[..|s| - 1][i + 1..];
    }
  }
}
