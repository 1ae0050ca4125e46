/**
 The popup that lists the command history: which command is selected and which part of
 the list is shown. Indices are 16-bit, so their sums can wrap.
 */
module CommandListPopup {
  import opened Short

  /** The selection is in the history and in the part of it that is shown. */
  predicate InWindow(current: int, bottom: int, height: int, n: int) {
    0 <= current && bottom - height < current <= bottom <= n - 1
  }

  /** The commands shown start here. */
  function TopIndex(bottom: int, height: int): int {
    if bottom < height then 0 else bottom - height + 1
  }

  /** A selection in the window is drawn on a row of the popup. */
  lemma RowInside(current: int, bottom: int, height: int, n: int)
    requires InWindow(current, bottom, height, n)
    ensures 0 <= current - TopIndex(bottom, height) < height
  {
  }

  const SIZE_MODULUS := 0x1_0000_0000_0000_0000

  /** Where `_update` goes: round the end of the list, or up to its ends. */
  function Target(current: int, delta: int, wrap: bool, n: int): (r: int)
    requires 0 < n <= SHORT_MAX
    ensures 0 <= r < n
  {
    var next := ToShort(current + delta);
    if wrap then (if next < 0 then next + SIZE_MODULUS else next) % n
    else if next >= n then n - 1
    else if next < 0 then 0
    else next
  }

  /** Without overflow a move goes where it says, or to the end of the list. */
  lemma TargetExact(current: int, delta: int, n: int)
    requires 0 <= current < n <= SHORT_MAX && IsShort(delta)
    ensures current + delta <= SHORT_MAX ==>
              Target(current, delta, false, n) ==
              if current + delta < 0 then 0 else if current + delta >= n then n - 1 else current + delta
    ensures current + delta > SHORT_MAX ==> Target(current, delta, false, n) == 0
  {
    if current + delta > SHORT_MAX {
      TooLarge(current + delta);
    }
  }

  /** The `End` key selects the last command exactly when its sum does not overflow. */
  lemma EndSelectsLast(current: int, n: int)
    requires 0 <= current < n <= SHORT_MAX
    ensures Target(current, n, false, n) == n - 1 <==> current + n <= SHORT_MAX
  {
    TargetExact(current, n, n);
  }

  lemma EndExample()
    ensures Target(19999, 20000, false, 20000) == 0
  {
  }

  lemma HomeSelectsFirst(current: int, n: int)
    requires 0 <= current < n <= SHORT_MAX
    ensures Target(current, -n, false, n) == 0
  {
    TargetExact(current, -n, n);
  }

  /** Cycling to a command that was found selects it. */
  lemma CycleSelects(current: int, index: int, n: int)
    requires 0 <= current < n <= SHORT_MAX && 0 <= index < n
    ensures Target(current, ToShort(index - current), true, n) == index
  {
    hide ToShort;
    assert ToShort(index - current) == index - current;
    assert ToShort(index) == index;
    InRange(index, n);
  }

  lemma InRange(index: int, n: int)
    requires 0 <= index < n
    ensures index % n == index
  {
  }

  /** A scroll down whose new bottom index does not fit its type. */
  predicate Overflows(current: int, bottom: int, target: int) {
    target > bottom && bottom + (target - current) > SHORT_MAX
  }

  /** How `_update` moves the shown part along. */
  function NextBottom(current: int, bottom: int, target: int, height: int, n: int): int {
    var moved := ToShort(bottom + (target - current));
    if target <= bottom - height then (if moved < height - 1 then height - 1 else moved)
    else if target > bottom then (if moved >= n then n - 1 else moved)
    else bottom
  }

  /** The selection stays in the window exactly when the bottom index does not overflow. */
  lemma WindowExact(current: int, bottom: int, target: int, height: int, n: int)
    requires 0 < n <= SHORT_MAX && 0 < height <= SHORT_MAX
    requires InWindow(current, bottom, height, n) && 0 <= target < n
    ensures InWindow(target, NextBottom(current, bottom, target, height, n), height, n) <==>
            !Overflows(current, bottom, target)
  {
    var sum := bottom + (target - current);
    if target <= bottom - height {
      assert target <= sum < bottom;
      assert ToShort(sum) == sum;
    } else if target > bottom {
      assert target <= sum < target + height;
      if sum > SHORT_MAX {
        TooLarge(sum);
      } else {
        assert ToShort(sum) == sum;
      }
    }
  }

  /** Sizes for which no run of keys makes the bottom index overflow. */
  predicate Safe(n: int, height: int) {
    n + height <= SHORT_MAX + 2 || n <= height
  }

  /** The selection is in the window, and a window for the whole list shows all of it. */
  predicate Shown(current: int, bottom: int, height: int, n: int) {
    InWindow(current, bottom, height, n) && (n <= height ==> bottom == n - 1)
  }

  lemma SafeKeeps(current: int, bottom: int, target: int, height: int, n: int)
    requires 0 < n <= SHORT_MAX && 0 < height <= SHORT_MAX && Safe(n, height)
    requires Shown(current, bottom, height, n) && 0 <= target < n
    ensures Shown(target, NextBottom(current, bottom, target, height, n), height, n)
  {
    hide NextBottom;
    WindowExact(current, bottom, target, height, n);
    if n <= height {
      WholeList(current, bottom, target, height, n);
    }
  }

  lemma WholeList(current: int, bottom: int, target: int, height: int, n: int)
    requires bottom == n - 1 && n <= height && 0 <= target < n
    ensures NextBottom(current, bottom, target, height, n) == bottom
  {
  }

  datatype Key =
    | Up | Down | ShiftUp | ShiftDown | End | Home | PageUp | PageDown | Delete
    | Letter(hit: Found)

  /** What the history finds for a letter. */
  datatype Found = Nothing | At(index: nat)

  /** The command that a key selects. */
  function Goal(key: Key, current: int, n: int, height: int): int {
    match key
    case Up => if current > 0 then current - 1 else 0
    case ShiftUp => if current > 0 then current - 1 else 0
    case Down => if current < n - 1 then current + 1 else n - 1
    case ShiftDown => if current < n - 1 then current + 1 else n - 1
    case Home => 0
    case End => if current + n <= SHORT_MAX then n - 1 else 0
    case PageUp => if current > height then current - height else 0
    case PageDown =>
      if current + height > SHORT_MAX then 0 else if current + height < n then current + height else n - 1
    case Delete => if current < n - 1 then current else n - 2
    case Letter(hit) => if hit.At? then hit.index else current
  }

  /** The sixteen-bit step that a key asks for. */
  function Delta(key: Key, current: int, n: int, height: int): int {
    match key
    case Up => -1
    case Down => 1
    case End => ToShort(n)
    case Home => -ToShort(n)
    case PageUp => -ToShort(height)
    case PageDown => ToShort(height)
    case Letter(At(index)) => ToShort(index - current)
    case _ => 0
  }

  lemma KeyGoal(key: Key, current: int, n: int, height: int)
    requires 0 <= current < n <= SHORT_MAX && 0 < height <= SHORT_MAX
    requires key.Letter? && key.hit.At? ==> key.hit.index < n
    ensures var d := Delta(key, current, n, height);
            && IsShort(d)
            && (key.ShiftUp? || key.ShiftDown? || key.Delete? ||
                Goal(key, current, n, height) == if d == 0 then current else Target(current, d, key.Letter?, n))
  {
    hide Target, ToShort;
    match key {
      case Letter(hit) => if hit.At? { CycleSelects(current, hit.index, n); }
      case _ => TargetExact(current, Delta(key, current, n, height), n);
    }
  }

  lemma ShiftGoal(current: int, n: int, height: int)
    requires 0 <= current < n
    ensures Goal(ShiftUp, current, n, height) == if current == 0 then 0 else current - 1
    ensures Goal(ShiftDown, current, n, height) == if current == n - 1 then current else current + 1
  {
  }

  lemma DeleteGoal(current: int, n: int, height: int)
    requires 0 <= current < n
    ensures Goal(Delete, current, n, height) == if current < n - 1 then current else n - 2
  {
  }

  /** A single step never overflows. */
  lemma OneStepKeeps(current: int, bottom: int, target: int, height: int, n: int)
    requires 0 < n <= SHORT_MAX && 0 < height <= SHORT_MAX && 0 <= target < n
    requires InWindow(current, bottom, height, n) && current - 1 <= target <= current + 1
    ensures !Overflows(current, bottom, target)
  {
  }

  datatype Status = Success | ReadComplete

  /** Where `_setBottomIndex` puts the end of the shown part. */
  function BottomFor(current: int, n: int, height: int): int {
    if current >= n - height then n - 1 else if current > height - 1 then current else height - 1
  }

  /**
   What a move of the selection does to the shown part: the selection stays in it exactly
   when the bottom index does not overflow, which it never does for safe sizes.
   */
  predicate Moved(current: int, bottom: int, next: int, end: int, height: int, n: int) {
    && (InWindow(current, bottom, height, n) ==>
          && (InWindow(next, end, height, n) <==> !Overflows(current, bottom, next))
          && end == NextBottom(current, bottom, next, height, n))
    && (Shown(current, bottom, height, n) && Safe(n, height) ==> Shown(next, end, height, n))
  }

  /** What a step of the selection by one does to the shown part. */
  predicate Followed(current: int, bottom: int, next: int, end: int, height: int, n: int) {
    && (InWindow(current, bottom, height, n) ==>
          && InWindow(next, end, height, n)
          && end == NextBottom(current, bottom, next, height, n)
          && !Overflows(current, bottom, next))
    && (Shown(current, bottom, height, n) && Safe(n, height) ==> Shown(next, end, height, n))
  }

  /** The selected command has moved with the selection, its neighbour has taken its place, the others stay. */
  predicate Exchanged<T(==)>(was: seq<T>, now: seq<T>, old': int, new': int)
    requires 0 <= old' < |was|
  {
    && |now| == |was| && 0 <= new' < |now|
    && now[new'] == was[old'] && now[old'] == was[new']
    && forall i | 0 <= i < |now| && i != old' && i != new' :: now[i] == was[i]
  }

  class Popup {
    const height: int
    var history: seq<string>
    var current: int
    var bottom: int

    ghost predicate Valid()
      reads this
    {
      && 0 < height <= SHORT_MAX && |history| <= SHORT_MAX && IsShort(bottom)
      && (history != [] ==> 0 <= current < |history|)
    }

    ghost predicate Window()
      reads this
    {
      InWindow(current, bottom, height, |history|)
    }

    ghost predicate Settled()
      reads this
    {
      Shown(current, bottom, height, |history|)
    }

    constructor (commands: seq<string>, lastDisplayed: int, popupHeight: int)
      requires IsShort(lastDisplayed) && 0 <= lastDisplayed && 0 < |commands| <= SHORT_MAX
      requires 0 < popupHeight <= SHORT_MAX
      ensures Valid() && Settled() && history == commands && height == popupHeight
      ensures current == if lastDisplayed < |commands| then lastDisplayed else |commands| - 1
      ensures bottom == BottomFor(current, |commands|, height)
    {
      height := popupHeight;
      history := commands;
      var last := ToShort(|commands| - 1);
      current := if last < lastDisplayed then last else lastDisplayed;
      bottom := 0;
      new;
      SetBottomIndex();
    }

    /** `_setBottomIndex`: whatever was shown before, the selection is in the window. */
    method SetBottomIndex()
      requires 0 < height <= SHORT_MAX && 0 <= current <= |history| <= SHORT_MAX
      modifies this`bottom
      ensures bottom == BottomFor(current, |history|, height) && IsShort(bottom)
      ensures current < |history| ==> Settled()
    {
      var n := |history|;
      if current < ToShort(n - height) {
        bottom := if current > height - 1 then current else height - 1;
      } else {
        bottom := ToShort(n - 1);
      }
    }

    /**
     `_update`, with the rows that are drawn when the list is not scrolled. The selection
     stays in the window exactly when the bottom index does not overflow.
     */
    method Update(delta: int, wrap: bool) returns (scrolled: bool, oldRow: int, newRow: int)
      requires Valid() && history != [] && IsShort(delta)
      modifies this`current, this`bottom
      ensures Valid()
      ensures current == if delta == 0 then old(current) else Target(old(current), delta, wrap, |history|)
      ensures bottom == if delta == 0 then old(bottom)
                        else NextBottom(old(current), old(bottom), current, height, |history|)
      ensures Moved(old(current), old(bottom), current, bottom, height, |history|)
      ensures !scrolled ==> bottom == old(bottom)
      ensures !scrolled ==> oldRow == old(current) - TopIndex(bottom, height)
      ensures !scrolled ==> newRow == current - TopIndex(bottom, height)
      ensures !scrolled && old(Window()) ==> 0 <= oldRow < height && 0 <= newRow < height
    {
      StayKeeps();
      if delta == 0 {
        scrolled, oldRow, newRow := false, current - TopIndex(bottom, height), current - TopIndex(bottom, height);
        return;
      }
      var next := Target(current, delta, wrap, |history|);
      MoveKeeps(next);
      hide Target, InWindow, Shown, Overflows, NextBottom, ToShort, TopIndex, Safe;
      scrolled, oldRow, newRow := MoveTo(next);
    }

    /** The scrolling and drawing part of `_update`. */
    method MoveTo(next: int) returns (scrolled: bool, oldRow: int, newRow: int)
      requires Valid() && 0 <= next < |history|
      modifies this`current, this`bottom
      ensures current == next && bottom == NextBottom(old(current), old(bottom), next, height, |history|)
      ensures scrolled <==> next <= old(bottom) - height || next > old(bottom)
      ensures !scrolled ==> bottom == old(bottom)
      ensures !scrolled ==> oldRow == old(current) - TopIndex(bottom, height)
      ensures !scrolled ==> newRow == current - TopIndex(bottom, height)
    {
      scrolled, oldRow, newRow := false, 0, 0;
      var n := |history|;
      var move := ToShort(next - current);
      if next <= bottom - height {
        bottom := ToShort(bottom + move);
        if bottom < height - 1 {
          bottom := height - 1;
        }
        scrolled := true;
      } else if next > bottom {
        bottom := ToShort(bottom + move);
        if bottom >= n {
          bottom := n - 1;
        }
        scrolled := true;
      } else {
        oldRow, newRow := current - TopIndex(bottom, height), next - TopIndex(bottom, height);
      }
      current := next;
    }

    /** A selection that stays where it is in the window moves nothing. */
    lemma StayKeeps()
      requires Valid()
      ensures Window() ==> NextBottom(current, bottom, current, height, |history|) == bottom
      ensures Window() ==> !Overflows(current, bottom, current)
      ensures Window() ==> 0 <= current - TopIndex(bottom, height) < height
    {
    }

    lemma StayFollows()
      requires Valid()
      ensures Followed(current, bottom, current, bottom, height, |history|)
    {
      StayKeeps();
    }

    lemma MoveKeeps(next: int)
      requires Valid() && 0 <= next < |history|
      ensures var b := NextBottom(current, bottom, next, height, |history|);
              && IsShort(b)
              && (Window() ==> (InWindow(next, b, height, |history|) <==> !Overflows(current, bottom, next)))
              && (Settled() && Safe(|history|, height) ==> Shown(next, b, height, |history|))
      ensures Window() && bottom - height < next <= bottom ==>
                && 0 <= current - TopIndex(bottom, height) < height
                && 0 <= next - TopIndex(bottom, height) < height
    {
      if Window() {
        WindowExact(current, bottom, next, height, |history|);
      }
      if Settled() && Safe(|history|, height) {
        SafeKeeps(current, bottom, next, height, |history|);
      }
    }

    /** `_deleteSelection`. */
    method DeleteSelection() returns (status: Status)
      requires Valid() && history != []
      modifies this
      ensures Valid()
      ensures history == old(history)[..old(current)] + old(history)[old(current) + 1..]
      ensures status == if history == [] then ReadComplete else Success
      ensures history != [] ==> Settled()
      ensures history != [] ==> current == if old(current) < |history| then old(current) else |history| - 1
    {
      history := history[..current] + history[current + 1..];
      SetBottomIndex();
      if |history| == 0 {
        return ReadComplete;
      } else if current >= ToShort(|history|) {
        current := ToShort(|history| - 1);
        bottom := current;
      }
      status := Success;
    }

    method Swap(a: int, b: int)
      requires 0 <= a < |history| && 0 <= b < |history|
      modifies this`history
      ensures history == old(history)[a := old(history)[b]][b := old(history)[a]]
    {
      history := history[a := history[b]][b := history[a]];
    }

    /** A step of the selection by one. */
    method StepSelection(delta: int)
      requires Valid() && (delta == 1 || delta == -1) && 0 <= current + delta < |history|
      modifies this`current, this`bottom
      ensures Valid() && current == old(current) + delta
      ensures Followed(old(current), old(bottom), current, bottom, height, |history|)
    {
      TargetExact(current, delta, |history|);
      if Window() {
        OneStepKeeps(current, bottom, current + delta, height, |history|);
      }
      hide Target, NextBottom, Shown, ToShort, Safe, InWindow, Overflows;
      var scrolled, oldRow, newRow := Update(delta, false);
    }

    /** `_swapUp`: the command moves up, and the selection with it. */
    method SwapUp()
      requires Valid() && history != []
      modifies this
      ensures Valid() && Followed(old(current), old(bottom), current, bottom, height, |old(history)|)
      ensures Exchanged(old(history), history, old(current), current)
      ensures current == if old(current) == 0 then 0 else old(current) - 1
    {
      if |history| <= 1 || current == 0 {
        StayFollows();
        return;
      }
      hide Followed;
      Swap(current, current - 1);
      StepSelection(-1);
    }

    /** `_swapDown`. */
    method SwapDown()
      requires Valid() && history != []
      modifies this
      ensures Valid() && Followed(old(current), old(bottom), current, bottom, height, |old(history)|)
      ensures Exchanged(old(history), history, old(current), current)
      ensures current == if old(current) == |history| - 1 then old(current) else old(current) + 1
    {
      if |history| <= 1 || current == |history| - 1 {
        StayFollows();
        return;
      }
      hide Followed;
      Swap(current, current + 1);
      StepSelection(1);
    }

    /** The keys of the popup. */
    method HandleKey(key: Key) returns (status: Status)
      requires Valid() && history != []
      requires key.Letter? && key.hit.At? ==> key.hit.index < |history|
      modifies this
      ensures Valid()
      ensures status == if history == [] then ReadComplete else Success
      ensures history != [] ==> current == Goal(key, old(current), |old(history)|, height)
      ensures key.Delete? && history != [] ==> Settled()
      ensures !key.Delete? ==> Moved(old(current), old(bottom), current, bottom, height, |history|)
      ensures key.ShiftUp? || key.ShiftDown? ==> Exchanged(old(history), history, old(current), current)
      ensures key.Delete? ==> history == old(history)[..old(current)] + old(history)[old(current) + 1..]
      ensures !key.ShiftUp? && !key.ShiftDown? && !key.Delete? ==> history == old(history)
    {
      ghost var n := |history|;
      ShiftGoal(current, n, height);
      DeleteGoal(current, n, height);
      KeyGoal(key, current, n, height);
      hide Goal, Target, ToShort, Delta, Shown, Safe, Moved, Overflows, NextBottom, InWindow;
      status := Success;
      if key.ShiftUp? || key.ShiftDown? {
        SwapSelection(key.ShiftUp?);
      } else if key.Delete? {
        status := DeleteSelection();
      } else {
        var scrolled, oldRow, newRow := Update(Delta(key, current, |history|, height), key.Letter?);
      }
    }

    method SwapSelection(up: bool)
      requires Valid() && history != []
      modifies this
      ensures Valid() && Exchanged(old(history), history, old(current), current)
      ensures Moved(old(current), old(bottom), current, bottom, height, |history|)
      ensures up ==> current == if old(current) == 0 then 0 else old(current) - 1
      ensures !up ==> current == if old(current) == |history| - 1 then old(current) else old(current) + 1
    {
      hide NextBottom, Overflows, InWindow, Shown, Safe;
      if up {
        SwapUp();
      } else {
        SwapDown();
      }
    }

    /**
     `Process`: any run of keys, until the history is empty; letters find what the history
     holds. For safe sizes the selection stays in the window throughout. The commands left
     are told by their places in the history at the start: those that no shift key has moved
     are still in their old order.
     */
    method Process(keys: seq<Key>) returns (ghost places: seq<nat>, ghost moved: seq<nat>)
      requires Valid() && history != []
      modifies this
      ensures Valid()
      ensures old(Settled()) && Safe(|old(history)|, height) && history != [] ==> Window()
      ensures Traces(places, moved, old(history), history)
      ensures |moved| <= Shifts(keys)
      ensures history != [] ==> |history| == |old(history)| - Deletions(keys)
      ensures history == Left(keys, old(history), old(current), height).0
      ensures history != [] ==> current == Left(keys, old(history), old(current), height).1
    {
      hide Traces, Shown, Safe, InWindow, Shifts, Deletions, Left, Edited, Goal, Effective;
      ghost var safe := Settled() && Safe(|history|, height);
      NothingCounted(history, current, height);
      StartTraces(history);
      places, moved := seq(|history|, i => i), [];
      for i := 0 to |keys|
        invariant Valid() && history != []
        invariant safe ==> Settled() && Safe(|history|, height)
        invariant Traces(places, moved, old(history), history)
        invariant (history, current) == Left(keys[..i], old(history), old(current), height)
        invariant |moved| <= Shifts(keys[..i]) && |history| == |old(history)| - Deletions(keys[..i])
      {
        KeyCounts(keys, i);
        LeftStep(keys, i, old(history), old(current), height);
        ghost var was, at := history, current;
        var status;
        status, places, moved := ProcessKey(keys[i], old(history), places, moved);
        EditedIs(Effective(keys[i], |was|), was, at, history, current);
        if status.ReadComplete? {
          CountsGrow(keys, i + 1);
          LeftNothing(keys, i + 1, old(history), old(current), height);
          return;
        }
      }
      assert keys[..|keys|] == keys;
      ShownInWindow();
    }

    lemma ShownInWindow()
      ensures Settled() ==> Window()
    {
    }

    /** One key of a run. */
    method ProcessKey(pressed: Key, ghost start: seq<string>, ghost places: seq<nat>, ghost moved: seq<nat>)
      returns (status: Status, ghost places': seq<nat>, ghost moved': seq<nat>)
      requires Valid() && history != [] && Traces(places, moved, start, history)
      modifies this
      ensures Valid() && Traces(places', moved', start, history)
      ensures status == if history == [] then ReadComplete else Success
      ensures |history| == |old(history)| - if pressed.Delete? then 1 else 0
      ensures Changed(Effective(pressed, |old(history)|), old(history), old(current), history, current)
      ensures history != [] ==>
                current == Goal(Effective(pressed, |old(history)|), old(current), |old(history)|, height)
      ensures |moved'| == |moved| + if pressed.ShiftUp? || pressed.ShiftDown? then 1 else 0
      ensures history != [] && old(Settled()) && Safe(|old(history)|, height) ==>
                Settled() && Safe(|history|, height)
    {
      hide Traces, Shown, InWindow;
      var key := Effective(pressed, |history|);
      ghost var was, at := history, current;
      NextTo(key, current, |history|, height);
      hide Goal, NextBottom, Overflows;
      status := HandleKey(key);
      places', moved' := Retrace(key, was, at, history, current, start, places, moved);
    }
  }

  /** What a key does to the history: exchange, remove or leave. */
  predicate Changed(key: Key, was: seq<string>, at: int, now: seq<string>, next: int)
    requires 0 <= at < |was|
  {
    if key.ShiftUp? || key.ShiftDown? then Exchanged(was, now, at, next)
    else if key.Delete? then now == was[..at] + was[at + 1..]
    else now == was
  }

  /** A letter finds a command of the history, or none. */
  function Effective(key: Key, n: nat): Key {
    if key.Letter? && key.hit.At? && key.hit.index >= n then Letter(Nothing) else key
  }

  /** The history after a key that selects command `next`. */
  function Edited(key: Key, was: seq<string>, at: int, next: int): seq<string>
    requires 0 <= at < |was|
  {
    if (key.ShiftUp? || key.ShiftDown?) && 0 <= next < |was| then was[at := was[next]][next := was[at]]
    else if key.Delete? then was[..at] + was[at + 1..]
    else was
  }

  /** History and selection after a run of keys; an empty history ends it. */
  function Left(keys: seq<Key>, history: seq<string>, current: int, height: int): (seq<string>, int) {
    if keys == [] then (history, current)
    else
      var (was, at) := Left(keys[..|keys| - 1], history, current, height);
      if 0 <= at < |was| then
        var key := Effective(keys[|keys| - 1], |was|);
        var next := Goal(key, at, |was|, height);
        (Edited(key, was, at, next), next)
      else (was, at)
  }

  lemma LeftStep(keys: seq<Key>, i: nat, history: seq<string>, current: int, height: int)
    requires i < |keys|
    ensures var (was, at) := Left(keys[..i], history, current, height);
            0 <= at < |was| ==>
              var key := Effective(keys[i], |was|);
              var next := Goal(key, at, |was|, height);
              Left(keys[..i + 1], history, current, height) == (Edited(key, was, at, next), next)
    ensures var (was, at) := Left(keys[..i], history, current, height);
            !(0 <= at < |was|) ==> Left(keys[..i + 1], history, current, height) == (was, at)
  {
    hide Goal, Edited, Effective;
    assert keys[..i + 1][..i] == keys[..i];
  }

  lemma {:induction false} LeftNothing(keys: seq<Key>, i: nat, history: seq<string>, current: int, height: int)
    requires i <= |keys| && Left(keys[..i], history, current, height).0 == []
    ensures Left(keys, history, current, height).0 == []
    decreases |keys| - i
  {
    if i < |keys| {
      LeftStep(keys, i, history, current, height);
      LeftNothing(keys, i + 1, history, current, height);
    } else {
      assert keys[..i] == keys;
    }
  }

  lemma EditedIs(key: Key, was: seq<string>, at: int, now: seq<string>, next: int)
    requires 0 <= at < |was| && Changed(key, was, at, now, next)
    ensures now == Edited(key, was, at, next)
    ensures forall n | key.Delete? :: now == Edited(key, was, at, n)
  {
  }

  lemma NextTo(key: Key, current: int, n: int, height: int)
    requires 0 <= current < n
    ensures key.ShiftUp? || key.ShiftDown? ==> -1 <= Goal(key, current, n, height) - current <= 1
  {
  }

  lemma NothingCounted(history: seq<string>, current: int, height: int)
    ensures Shifts([]) == 0 && Deletions([]) == 0 && Left([], history, current, height) == (history, current)
  {
  }

  lemma StartTraces(history: seq<string>)
    ensures Traces(seq(|history|, i => i), [], history, history)
  {
  }

  function Shifts(keys: seq<Key>): nat {
    if keys == [] then 0
    else Shifts(keys[..|keys| - 1]) + (if keys[|keys| - 1].ShiftUp? || keys[|keys| - 1].ShiftDown? then 1 else 0)
  }

  function Deletions(keys: seq<Key>): nat {
    if keys == [] then 0 else Deletions(keys[..|keys| - 1]) + (if keys[|keys| - 1].Delete? then 1 else 0)
  }

  lemma KeyCounts(keys: seq<Key>, i: nat)
    requires i < |keys|
    ensures Shifts(keys[..i + 1]) == Shifts(keys[..i]) + (if keys[i].ShiftUp? || keys[i].ShiftDown? then 1 else 0)
    ensures Deletions(keys[..i + 1]) == Deletions(keys[..i]) + (if keys[i].Delete? then 1 else 0)
  {
    assert keys[..i + 1][..i] == keys[..i];
  }

  lemma {:induction false} CountsGrow(keys: seq<Key>, i: nat)
    requires i <= |keys|
    ensures Shifts(keys[..i]) <= Shifts(keys)
    decreases |keys| - i
  {
    if i < |keys| {
      KeyCounts(keys, i);
      CountsGrow(keys, i + 1);
    } else {
      assert keys[..i] == keys;
    }
  }

  /** Each command is one of those at the start, each at most once; those not moved are in order. */
  ghost predicate Traces(places: seq<nat>, moved: seq<nat>, start: seq<string>, now: seq<string>) {
    && |places| == |now|
    && (forall i | 0 <= i < |now| :: places[i] < |start| && now[i] == start[places[i]])
    && InOrder(places, moved)
  }

  ghost predicate InOrder(places: seq<nat>, moved: seq<nat>) {
    forall i, j | 0 <= i < j < |places| ::
      && places[i] != places[j]
      && (places[i] !in moved && places[j] !in moved ==> places[i] < places[j])
  }

  /** What a key does to the places. */
  ghost method Retrace(key: Key, was: seq<string>, at: int, now: seq<string>, next: int, start: seq<string>,
                       places: seq<nat>, moved: seq<nat>) returns (places': seq<nat>, moved': seq<nat>)
    requires 0 <= at < |was| && Traces(places, moved, start, was)
    requires key.ShiftUp? || key.ShiftDown? ==> Exchanged(was, now, at, next) && -1 <= next - at <= 1
    requires key.Delete? ==> now == was[..at] + was[at + 1..]
    requires !key.ShiftUp? && !key.ShiftDown? && !key.Delete? ==> now == was
    ensures Traces(places', moved', start, now)
    ensures |moved'| == |moved| + if key.ShiftUp? || key.ShiftDown? then 1 else 0
  {
    places', moved' := places, moved;
    if key.ShiftUp? || key.ShiftDown? {
      moved' := moved + [places[at]];
      places' := places[at := places[next]][next := places[at]];
      assert Exchanged(places, places', at, next);
      SwapInOrder(places, moved, at, next);
    } else if key.Delete? {
      places' := places[..at] + places[at + 1..];
      RemoveInOrder(places, moved, at);
    }
  }

  lemma SwapInOrder(places: seq<nat>, moved: seq<nat>, at: int, next: int)
    requires InOrder(places, moved) && 0 <= at < |places| && 0 <= next < |places| && -1 <= next - at <= 1
    ensures InOrder(places[at := places[next]][next := places[at]], moved + [places[at]])
  {
    var r := places[at := places[next]][next := places[at]];
    assert forall p | p in moved :: p in moved + [places[at]];
    forall i, j | 0 <= i < j < |r|
      ensures r[i] != r[j]
      ensures r[i] !in moved + [places[at]] && r[j] !in moved + [places[at]] ==> r[i] < r[j]
    {
      var i' := if i == at then next else if i == next then at else i;
      var j' := if j == at then next else if j == next then at else j;
      assert r[i] == places[i'] && r[j] == places[j'];
    }
  }

  lemma RemoveInOrder(places: seq<nat>, moved: seq<nat>, at: int)
    requires InOrder(places, moved) && 0 <= at < |places|
    ensures InOrder(places[..at] + places[at + 1..], moved)
  {
  }

  /**
   The sizes that are not safe are just those for which a run of keys takes the selection
   out of the window: down to the last command but one, up through the whole window, and
   a page down.
   */
  method OverflowRun(commands: seq<string>, height: int) returns (popup: Popup)
    requires 0 < |commands| <= SHORT_MAX && 0 < height <= SHORT_MAX && !Safe(|commands|, height)
    ensures fresh(popup) && popup.Valid() && popup.history != [] && !popup.Window()
  {
    var n := |commands|;
    popup := new Popup(commands, 0, height);
    var status;
    while popup.current < n - 2
      invariant popup.Valid() && popup.Window() && |popup.history| == n && popup.height == height
      invariant popup.current <= n - 2
      invariant popup.bottom == if popup.current > height - 1 then popup.current else height - 1
      invariant fresh(popup)
    {
      status := popup.HandleKey(Down);
    }
    for i := 0 to height - 1
      invariant popup.Valid() && popup.Window() && |popup.history| == n && popup.height == height
      invariant popup.current == n - 2 - i && popup.bottom == n - 2
      invariant fresh(popup)
    {
      status := popup.HandleKey(Up);
    }
    status := popup.HandleKey(PageDown);
  }
}
