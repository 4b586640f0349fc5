/**
 * The TextMorpher class of 404.js: a cursor moving cyclically through the
 * characters of a text, a lookup table of substitutes, a running flag and the
 * timers that drive it. Timers are abstract: `setInterval` hands out a fresh
 * handle that stays live until `clearInterval`; a tick of a live interval is a
 * call of `Tick`, and a pending `setTimeout` of the pause is a count that
 * `PauseElapsed` consumes. The page element is the `display` field.
 */
module Morpher {
  import opened Wrappers
  import opened MorphText

  /** The handles that `clearInterval(id)` stops: none for `null`. */
  function Handles(id: Option<nat>): set<nat>
  {
    if id.Some? then {id.value} else {}
  }

  class TextMorpher {
    var originalText: string
    var chars: seq<char>
    var currentIndex: nat
    var replacementMap: map<char, string>
    var replacements: seq<Replacement>
    var isRunning: bool
    var speed: int
    var pauseOnOriginal: int

    /** `this.intervalId`: `null` or the handle of the last interval set. */
    var intervalId: Option<nat>
    /** Handles of the intervals that are still firing. */
    var liveIntervals: set<nat>
    /** The handle the next `setInterval` returns (browsers hand out positive ids). */
    var nextHandle: nat
    /** `setTimeout` callbacks of the pause that have not fired yet. */
    var pendingRestarts: nat

    /** The text content of the page element. */
    var display: string

    ghost predicate Valid()
      reads this
    {
      && chars == originalText
      && CursorOk(currentIndex, |chars|)
      && replacementMap == BuildMap(replacements)
      && 0 < nextHandle
      && (forall h :: h in liveIntervals ==> 0 < h < nextHandle)
    }

    /** The constructor with its options already merged, followed by `init`,
        which shows the original text. */
    constructor (text: string, speed: int, pauseOnOriginal: int, replacements: seq<Replacement>)
      ensures Valid()
      ensures originalText == text && chars == text && display == text
      ensures currentIndex == 0 && !isRunning
      ensures intervalId == None && liveIntervals == {} && pendingRestarts == 0
      ensures this.replacements == replacements && replacementMap == BuildMap(replacements)
      ensures this.speed == speed && this.pauseOnOriginal == pauseOnOriginal
    {
      originalText := text;
      this.speed := speed;
      this.pauseOnOriginal := pauseOnOriginal;
      this.replacements := replacements;
      currentIndex := 0;
      intervalId := None;
      isRunning := false;
      chars := text;
      replacementMap := BuildMap(replacements);
      liveIntervals := {};
      nextHandle := 1;
      pendingRestarts := 0;
      display := text;
    }

    /** `animate`: start a new periodic timer and remember its handle. */
    method Animate()
      requires Valid()
      modifies this`intervalId, this`liveIntervals, this`nextHandle
      ensures Valid()
      ensures intervalId == Some(old(nextHandle)) && old(nextHandle) !in old(liveIntervals)
      ensures liveIntervals == old(liveIntervals) + {old(nextHandle)}
      ensures nextHandle == old(nextHandle) + 1
    {
      intervalId := Some(nextHandle);
      liveIntervals := liveIntervals + {nextHandle};
      nextHandle := nextHandle + 1;
    }

    /** `start`: a no-op when already running; otherwise mark running and start
        an interval. The cursor is left where it was. */
    method Start()
      requires Valid()
      modifies this`isRunning, this`intervalId, this`liveIntervals, this`nextHandle
      ensures Valid() && isRunning
      ensures old(isRunning) ==>
        intervalId == old(intervalId) && liveIntervals == old(liveIntervals) && nextHandle == old(nextHandle)
      ensures !old(isRunning) ==>
        intervalId == Some(old(nextHandle)) && liveIntervals == old(liveIntervals) + {old(nextHandle)} &&
        nextHandle == old(nextHandle) + 1
      ensures currentIndex == old(currentIndex)
    {
      if isRunning {
        return;
      }
      isRunning := true;
      Animate();
    }

    /** `stop`: clear the interval, stop running and show the original text.
        The cursor is kept. */
    method Stop()
      requires Valid()
      modifies this`isRunning, this`intervalId, this`liveIntervals, this`display
      ensures Valid() && !isRunning && intervalId == None
      ensures liveIntervals == old(liveIntervals) - Handles(old(intervalId))
      ensures display == originalText
      ensures currentIndex == old(currentIndex)
    {
      if intervalId.Some? {
        liveIntervals := liveIntervals - {intervalId.value};
        intervalId := None;
      }
      isRunning := false;
      display := originalText;
    }

    /** `pause`: as `stop`, but the display keeps the text it shows. */
    method Pause()
      requires Valid()
      modifies this`isRunning, this`intervalId, this`liveIntervals
      ensures Valid() && !isRunning && intervalId == None
      ensures liveIntervals == old(liveIntervals) - Handles(old(intervalId))
      ensures display == old(display) && currentIndex == old(currentIndex)
    {
      if intervalId.Some? {
        liveIntervals := liveIntervals - {intervalId.value};
        intervalId := None;
      }
      isRunning := false;
    }

    /** `resume`: `start` unless already running; continues from the cursor. */
    method Resume()
      requires Valid()
      modifies this`isRunning, this`intervalId, this`liveIntervals, this`nextHandle
      ensures Valid() && isRunning
      ensures old(isRunning) ==>
        intervalId == old(intervalId) && liveIntervals == old(liveIntervals) && nextHandle == old(nextHandle)
      ensures !old(isRunning) ==>
        intervalId == Some(old(nextHandle)) && liveIntervals == old(liveIntervals) + {old(nextHandle)} &&
        nextHandle == old(nextHandle) + 1
      ensures currentIndex == old(currentIndex) && display == old(display)
    {
      if !isRunning {
        Start();
      }
    }

    /** `findNextReplaceableChar`: scan at most once around the text from the
        cursor for a character that has an entry in the table. */
    method FindNextReplaceableChar() returns (r: int)
      requires Valid()
      ensures r == NextReplaceable(chars, replacementMap.Keys, currentIndex)
      ensures r == -1 <==> forall j :: 0 <= j < |chars| ==> chars[j] !in replacementMap
    {
      NextReplaceableNone(chars, replacementMap.Keys, currentIndex);
      ghost var keys := replacementMap.Keys;
      ghost var n := |chars|;
      var searchIndex := currentIndex;
      var i := 0;
      if 0 < n {
        ModSmall(currentIndex, n);
      }
      while i < |chars|
        invariant 0 <= i <= n
        invariant i < n ==> searchIndex == (currentIndex + i) % n
        invariant FirstOffset(chars, keys, currentIndex, i) == FirstOffset(chars, keys, currentIndex, 0)
      {
        if chars[searchIndex] in replacementMap {
          assert CyclicAt(chars, currentIndex, i) in keys;
          return searchIndex;
        }
        assert FirstOffset(chars, keys, currentIndex, i) == FirstOffset(chars, keys, currentIndex, i + 1);
        searchIndex := (searchIndex + 1) % |chars|;
        i := i + 1;
        if i < n {
          StepMod(currentIndex, i - 1, n);
        }
      }
      return -1;
    }

    /** `showOriginalWithPause`: show the original text; with a positive pause
        clear the interval (leaving `intervalId` set) and schedule a restart. */
    method ShowOriginalWithPause()
      requires Valid()
      modifies this`display, this`liveIntervals, this`pendingRestarts
      ensures Valid() && display == originalText
      ensures pauseOnOriginal > 0 ==>
        liveIntervals == old(liveIntervals) - Handles(intervalId) &&
        pendingRestarts == old(pendingRestarts) + 1
      ensures pauseOnOriginal <= 0 ==>
        liveIntervals == old(liveIntervals) && pendingRestarts == old(pendingRestarts)
    {
      display := originalText;
      if pauseOnOriginal > 0 {
        liveIntervals := liveIntervals - Handles(intervalId);
        pendingRestarts := pendingRestarts + 1;
      }
    }

    /** The pause's `setTimeout` callback: if still running, rewind the cursor
        and start a new interval (the old handle is overwritten). */
    method PauseElapsed()
      requires Valid() && pendingRestarts > 0
      modifies this`pendingRestarts, this`currentIndex, this`intervalId, this`liveIntervals, this`nextHandle
      ensures Valid() && pendingRestarts == old(pendingRestarts) - 1
      ensures old(isRunning) ==>
        currentIndex == 0 && intervalId == Some(old(nextHandle)) &&
        liveIntervals == old(liveIntervals) + {old(nextHandle)} && nextHandle == old(nextHandle) + 1
      ensures !old(isRunning) ==>
        currentIndex == old(currentIndex) && intervalId == old(intervalId) &&
        liveIntervals == old(liveIntervals) && nextHandle == old(nextHandle)
    {
      pendingRestarts := pendingRestarts - 1;
      if isRunning {
        currentIndex := 0;
        Animate();
      }
    }

    /** `morphStep`, one tick: find the next replaceable character; if there is
        none show the original and pause, otherwise show the text with that one
        character substituted and move the cursor past it. */
    method Tick()
      requires Valid()
      modifies this`currentIndex, this`display, this`liveIntervals, this`pendingRestarts
      ensures Valid()
      ensures var target := NextReplaceable(chars, replacementMap.Keys, old(currentIndex));
        if target == -1 then
          && display == originalText
          && currentIndex == old(currentIndex)
          && (pauseOnOriginal > 0 ==>
                liveIntervals == old(liveIntervals) - Handles(intervalId) &&
                pendingRestarts == old(pendingRestarts) + 1)
          && (pauseOnOriginal <= 0 ==>
                liveIntervals == old(liveIntervals) && pendingRestarts == old(pendingRestarts))
        else
          && display == MorphedText(chars, replacementMap, target)
          && currentIndex == (target + 1) % |chars|
          && liveIntervals == old(liveIntervals) && pendingRestarts == old(pendingRestarts)
    {
      var targetIndex := FindNextReplaceableChar();
      if targetIndex == -1 {
        ShowOriginalWithPause();
        return;
      }
      currentIndex := targetIndex;
      var morphed := MorphedText(chars, replacementMap, currentIndex);
      display := morphed;
      currentIndex := (currentIndex + 1) % |chars|;
    }

    /** `setSpeed`: store the interval length; while running, pause and resume
        so that a new interval starts. The cursor and display are kept. */
    method SetSpeed(newSpeed: int)
      requires Valid()
      modifies this`speed, this`isRunning, this`intervalId, this`liveIntervals, this`nextHandle
      ensures Valid() && speed == newSpeed && isRunning == old(isRunning)
      ensures currentIndex == old(currentIndex) && display == old(display)
      ensures old(isRunning) ==>
        intervalId == Some(old(nextHandle)) &&
        liveIntervals == old(liveIntervals) - Handles(old(intervalId)) + {old(nextHandle)}
      ensures !old(isRunning) ==> intervalId == old(intervalId) && liveIntervals == old(liveIntervals)
    {
      speed := newSpeed;
      if isRunning {
        Pause();
        Resume();
      }
    }

    /** `setText`: stop, take the new text with the cursor at 0, show it, and
        start again if it was running. */
    method SetText(newText: string)
      requires Valid()
      modifies this`isRunning, this`intervalId, this`liveIntervals, this`nextHandle, this`display,
        this`originalText, this`chars, this`currentIndex
      ensures Valid()
      ensures originalText == newText && chars == newText && display == newText && currentIndex == 0
      ensures isRunning == old(isRunning)
      ensures old(isRunning) ==>
        intervalId == Some(old(nextHandle)) &&
        liveIntervals == old(liveIntervals) - Handles(old(intervalId)) + {old(nextHandle)}
      ensures !old(isRunning) ==>
        intervalId == None && liveIntervals == old(liveIntervals) - Handles(old(intervalId))
    {
      var wasRunning := isRunning;
      Stop();
      originalText := newText;
      chars := newText;
      currentIndex := 0;
      display := originalText;
      if wasRunning {
        Start();
      }
    }

    /** `addReplacement`: set the table entry (last write wins) and append the
        pair to the list. */
    method AddReplacement(from: char, to: string)
      requires Valid()
      modifies this`replacementMap, this`replacements
      ensures Valid()
      ensures replacementMap == old(replacementMap)[from := to]
      ensures replacements == old(replacements) + [Replacement(from, to)]
    {
      BuildMapAppend(replacements, Replacement(from, to));
      replacementMap := replacementMap[from := to];
      replacements := replacements + [Replacement(from, to)];
      assert replacementMap == BuildMap(replacements);
    }

    /** `removeReplacement`: delete the table entry and every list entry with
        that `from`. */
    method RemoveReplacement(from: char)
      requires Valid()
      modifies this`replacementMap, this`replacements
      ensures Valid()
      ensures replacementMap == old(replacementMap) - {from}
      ensures replacements == WithoutFrom(old(replacements), from)
    {
      BuildMapWithoutFrom(replacements, from);
      replacementMap := replacementMap - {from};
      replacements := WithoutFrom(replacements, from);
    }
  }

  lemma StepMod(start: nat, i: nat, n: nat)
    requires start < n && i + 1 < n
    ensures ((start + i) % n + 1) % n == (start + i + 1) % n
  {
    var x := start + i;
    if x + 1 < n {
      ModSmall(x, n);
      ModSmall(x + 1, n);
    } else if x + 1 == n {
      ModSmall(x, n);
      ModWrap(0, n);
      assert (x + 1) % n == 0;
    } else {
      var y := x - n;
      ModWrap(y, n);
      assert x % n == y;
      ModSmall(y + 1, n);
      ModWrap(y + 1, n);
      assert x + 1 == y + 1 + n;
    }
  }

  /** Stopping and starting again continues from the same cursor. */
  method StopThenStartKeepsCursor(m: TextMorpher)
    requires m.Valid()
    modifies m
    ensures m.Valid() && m.isRunning
    ensures m.currentIndex == old(m.currentIndex)
    ensures m.display == m.originalText
  {
    m.Stop();
    m.Start();
  }

  /** Pausing and resuming continues from the same cursor and display. */
  method PauseThenResumeKeepsCursor(m: TextMorpher)
    requires m.Valid()
    modifies m
    ensures m.Valid() && m.isRunning
    ensures m.currentIndex == old(m.currentIndex) && m.display == old(m.display)
  {
    m.Pause();
    m.Resume();
  }

  /** With text "шаг" and table {ш→#, а→%} the ticks show "#аг", "ш%г" and
      then "#аг" again: the scan wraps past 'г', so the pause is never taken. */
  method ShaExample()
  {
    var m := new TextMorpher("шаг", 250, 1000, [Replacement('ш', "#"), Replacement('а', "%")]);
    m.Start();
    m.Tick();
    MorphedTextShape(m.chars, m.replacementMap, 0);
    assert m.display == "#аг";
    assert m.currentIndex == 1;
    m.Tick();
    MorphedTextShape(m.chars, m.replacementMap, 1);
    assert m.display == "ш%г";
    assert m.currentIndex == 2;
    assert FirstOffset(m.chars, m.replacementMap.Keys, 2, 0) == 1 by {
      assert CyclicAt(m.chars, 2, 0) == 'г';
      assert CyclicAt(m.chars, 2, 1) == 'ш';
    }
    m.Tick();
    assert m.display == "#аг";
    assert m.isRunning && m.pendingRestarts == 0;
  }
}
