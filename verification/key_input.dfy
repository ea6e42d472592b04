/**
 The window callbacks of 2d-game/src/main.rs that carry logic: the key
 callback, which records key state for the game and closes the window on
 Escape, and the filter that drops four driver debug messages.

 The game's `keys` and `keys_processed` arrays hold 1024 flags each; the
 window's close flag is kept beside them. A GLFW key is its integer code
 (`Key::Unknown` is -1, `Key::Escape` is 256).
 */
module KeyInput {
  import opened RustInts
  import opened Wrappers

  const KEY_COUNT: int := 1024
  const KEY_ESCAPE: int := 256

  /** A `[bool; 1024]` array of per-key flags. */
  type KeyTable = t: seq<bool> | |t| == 1024 witness seq(1024, _ => false)

  datatype Action = Release | Press | Repeat

  datatype KeyEvent = KeyEvent(key: int, action: Action)

  /** The game's key flags and the window's close request. */
  datatype KeyState = KeyState(keys: KeyTable, keysProcessed: KeyTable, shouldClose: bool)

  /** The key code indexes the arrays: `(0..1024).contains(&key)`. */
  predicate InRange(key: int) {
    0 <= key < KEY_COUNT
  }

  /** The event that asks the window to close. */
  predicate ClosesWindow(e: KeyEvent) {
    e.key == KEY_ESCAPE && e.action == Press
  }

  /**
   `key_callback`: Escape+Press requests closing; an in-range Press marks
   the key down; an in-range Release marks it up and clears its processed
   flag. Nothing else changes: no other index, never the array lengths, and
   the close request is never withdrawn.
   */
  function KeyCallback(s: KeyState, e: KeyEvent): (r: KeyState)
    ensures r.shouldClose <==> s.shouldClose || ClosesWindow(e)
    ensures forall k | 0 <= k < KEY_COUNT && k != e.key ::
      r.keys[k] == s.keys[k] && r.keysProcessed[k] == s.keysProcessed[k]
    ensures !InRange(e.key) || e.action == Repeat ==>
      r.keys == s.keys && r.keysProcessed == s.keysProcessed
    ensures InRange(e.key) && e.action == Press ==>
      r.keys[e.key] && r.keysProcessed[e.key] == s.keysProcessed[e.key]
    ensures InRange(e.key) && e.action == Release ==>
      !r.keys[e.key] && !r.keysProcessed[e.key]
  {
    var closing := if ClosesWindow(e) then true else s.shouldClose;
    if !InRange(e.key) then
      s.(shouldClose := closing)
    else
      match e.action
      case Press => s.(keys := s.keys[e.key := true], shouldClose := closing)
      case Release =>
        s.(keys := s.keys[e.key := false], keysProcessed := s.keysProcessed[e.key := false],
           shouldClose := closing)
      case Repeat => s.(shouldClose := closing)
  }

  /** Delivering the same event twice has the effect of delivering it once. */
  lemma KeyCallbackIdempotent(s: KeyState, e: KeyEvent)
    ensures KeyCallback(KeyCallback(s, e), e) == KeyCallback(s, e)
  {
  }

  /** The state after the callback has seen `events` in order. */
  function ApplyEvents(s: KeyState, events: seq<KeyEvent>): KeyState
    decreases |events|
  {
    if events == [] then s
    else KeyCallback(ApplyEvents(s, events[..|events| - 1]), events[|events| - 1])
  }

  /** Closing latches: the window is asked to close iff it was, or Escape was pressed. */
  lemma {:induction false} CloseRequestLatches(s: KeyState, events: seq<KeyEvent>)
    ensures ApplyEvents(s, events).shouldClose <==>
      s.shouldClose || exists i | 0 <= i < |events| :: ClosesWindow(events[i])
    decreases |events|
  {
    if events != [] {
      var init := events[..|events| - 1];
      CloseRequestLatches(s, init);
      if exists i | 0 <= i < |init| :: ClosesWindow(init[i]) {
        var i :| 0 <= i < |init| && ClosesWindow(init[i]);
        assert events[i] == init[i];
      }
      if exists i | 0 <= i < |events| :: ClosesWindow(events[i]) {
        var i :| 0 <= i < |events| && ClosesWindow(events[i]);
        if i < |init| {
          assert init[i] == events[i];
        }
      }
    }
  }

  /**
   Reference meaning of `keys[k]`: the last Press (down) or Release (up) of
   key `k` among `events`, if there is one.
   */
  function LastTransition(events: seq<KeyEvent>, k: int): Option<bool>
    decreases |events|
  {
    if events == [] then None
    else
      var e := events[|events| - 1];
      if e.key == k && e.action == Press then Some(true)
      else if e.key == k && e.action == Release then Some(false)
      else LastTransition(events[..|events| - 1], k)
  }

  /** `keys[k]` follows the last Press or Release of `k`, and is unchanged without one. */
  lemma {:induction false} KeyDownIffLastPressed(s: KeyState, events: seq<KeyEvent>, k: int)
    requires InRange(k)
    ensures ApplyEvents(s, events).keys[k] == LastTransition(events, k).GetOr(s.keys[k])
    decreases |events|
  {
    if events != [] {
      KeyDownIffLastPressed(s, events[..|events| - 1], k);
    }
  }

  /** A key's processed flag survives exactly when no Release of that key arrived. */
  lemma {:induction false} ProcessedClearedByRelease(s: KeyState, events: seq<KeyEvent>, k: int)
    requires InRange(k)
    ensures ApplyEvents(s, events).keysProcessed[k] <==>
      s.keysProcessed[k] && forall i | 0 <= i < |events| :: events[i] != KeyEvent(k, Release)
    decreases |events|
  {
    if events != [] {
      var init := events[..|events| - 1];
      ProcessedClearedByRelease(s, init, k);
      assert forall i | 0 <= i < |init| :: init[i] == events[i];
    }
  }

  /** Events for codes outside the arrays change no key flag. */
  lemma {:induction false} OutOfRangeEventsKeepFlags(s: KeyState, events: seq<KeyEvent>)
    requires forall i | 0 <= i < |events| :: !InRange(events[i].key)
    ensures ApplyEvents(s, events).keys == s.keys
    ensures ApplyEvents(s, events).keysProcessed == s.keysProcessed
    decreases |events|
  {
    if events != [] {
      OutOfRangeEventsKeepFlags(s, events[..|events| - 1]);
    }
  }

  /** The driver debug-message ids `gl_debug_output` ignores as insignificant. */
  const IGNORED_DEBUG_IDS: set<u32> := {131169, 131185, 131218, 131204}

  /**
   The id filter at the top of `gl_debug_output`: a message gets past it
   unless its id is one of the four ignored ones.
   */
  function PassesDebugFilter(id: u32): (passes: bool)
    ensures !passes <==> id in IGNORED_DEBUG_IDS
  {
    !(id == 131169 || id == 131185 || id == 131218 || id == 131204)
  }
}
