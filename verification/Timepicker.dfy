/** The spinners of ui-bootstrap's time picker. */
module Timepicker {
  import opened Wrappers

  const DAY := 86400

  /** A point in time: a calendar day and the seconds into it. */
  datatype Moment = Moment(day: int, second: int) {
    predicate Valid() {
      0 <= second < DAY
    }

    function Time(): int {
      day * DAY + second
    }
  }

  /** `addSeconds`: the time of day moves and wraps, the day stays. */
  function AddSeconds(m: Moment, seconds: int): Moment {
    Moment(m.day, (m.second + seconds) % DAY)
  }

  /** The time moves on by the seconds, forward if they are positive, but for whole days; the day stays. */
  lemma AddedSeconds(m: Moment, seconds: int) returns (days: int)
    ensures var r := AddSeconds(m, seconds);
            && r.day == m.day && 0 <= r.second < 24 * 60 * 60
            && r.second == m.second + seconds - days * (24 * 60 * 60)
  {
    days := (m.second + seconds) / DAY;
  }

  /** Moments are ordered by the day, and within a day by the time. */
  lemma MomentsOrdered(a: Moment, b: Moment)
    requires a.Valid() && b.Valid()
    ensures a.Time() <= b.Time() <==> a.day < b.day || (a.day == b.day && a.second <= b.second)
  {
    if a.day < b.day {
      assert b.day * DAY >= (a.day + 1) * DAY;
    } else if b.day < a.day {
      assert a.day * DAY >= (b.day + 1) * DAY;
    }
  }

  predicate Within(m: Moment, min: Option<Moment>, max: Option<Moment>) {
    (min.Some? ==> min.value.Time() <= m.Time()) && (max.Some? ==> m.Time() <= max.value.Time())
  }

  datatype Click = Increment(step: int) | Decrement(step: int) | ToggleMeridian

  /** What happens to the spinners: a click, or a watched value that changes. */
  datatype Move =
    | Clicked(click: Click)
    | DisabledChanges(disabled: bool)
    | MinChanges(min: Option<Moment>)
    | MaxChanges(max: Option<Moment>)

  predicate MovesBound(m: Move) {
    m.MinChanges? || m.MaxChanges?
  }

  class Spinner {
    var selected: Moment
    var min: Option<Moment>
    var max: Option<Moment>
    var disabled: bool

    constructor (selected: Moment, min: Option<Moment>, max: Option<Moment>)
      ensures this.selected == selected && this.min == min && this.max == max && !disabled
    {
      this.selected, this.min, this.max, disabled := selected, min, max, false;
    }

    predicate AboveMax(m: Moment)
      reads this
    {
      max.Some? && m.Time() > max.value.Time()
    }

    predicate BelowMin(m: Moment)
      reads this
    {
      min.Some? && m.Time() < min.value.Time()
    }

    /** `noIncrementHours`, `noIncrementMinutes` and `noIncrementSeconds`, for a step in seconds */
    predicate NoIncrement(step: int)
      reads this
    {
      var incremented := AddSeconds(selected, step);
      disabled || AboveMax(incremented) || (incremented.Time() < selected.Time() && BelowMin(incremented))
    }

    /** `noDecrementHours`, `noDecrementMinutes` and `noDecrementSeconds` */
    predicate NoDecrement(step: int)
      reads this
    {
      var decremented := AddSeconds(selected, -step);
      disabled || BelowMin(decremented) || (decremented.Time() > selected.Time() && AboveMax(decremented))
    }

    predicate NoToggleMeridian()
      reads this
    {
      if selected.second < DAY / 2 then disabled || AboveMax(AddSeconds(selected, DAY / 2))
      else disabled || BelowMin(AddSeconds(selected, -DAY / 2))
    }

    /** What a click would select. */
    function Target(click: Click): Moment
      reads this
    {
      match click
      case Increment(step) => AddSeconds(selected, step)
      case Decrement(step) => AddSeconds(selected, -step)
      case ToggleMeridian => AddSeconds(selected, if selected.second < DAY / 2 then DAY / 2 else -DAY / 2)
    }

    /**
     * A click of any spinner, with any step. From within the bounds the selection follows it exactly when the
     * spinner is enabled and the target, wrapped within the same day, keeps to the bounds. From outside them, where
     * a moved bound may have left it, it stays or takes the target, on the same day.
     */
    method Perform(click: Click)
      requires selected.Valid()
      modifies this`selected
      ensures old(Within(selected, min, max)) ==>
                if !disabled && Within(old(Target(click)), min, max) then selected == old(Target(click))
                else selected == old(selected)
      ensures selected == old(Target(click)) || selected == old(selected)
      ensures selected.Valid() && selected.day == old(selected.day)
      ensures disabled ==> selected == old(selected)
    {
      match click {
        case Increment(step) =>
          if !NoIncrement(step) {
            selected := AddSeconds(selected, step);
          }
        case Decrement(step) =>
          if !NoDecrement(step) {
            selected := AddSeconds(selected, -step);
          }
        case ToggleMeridian =>
          if !NoToggleMeridian() {
            selected := AddSeconds(selected, if selected.second < DAY / 2 then DAY / 2 else -DAY / 2);
          }
      }
    }

    /** A click, or what a watch does when its value changes. */
    method Make(move: Move)
      requires selected.Valid()
      modifies this
      ensures selected.Valid() && selected.day == old(selected.day)
      ensures !MovesBound(move) ==> min == old(min) && max == old(max)
      ensures !MovesBound(move) && old(Within(selected, min, max)) ==> Within(selected, min, max)
    {
      match move {
        case Clicked(click) => Perform(click);
        case DisabledChanges(value) => disabled := value;
        case MinChanges(value) => min := value;
        case MaxChanges(value) => max := value;
      }
    }

    /**
     * Any run stays on the day it started. From within the bounds it stays within them, however often the spinners
     * are disabled and enabled, as long as no bound moves.
     */
    method Run(moves: seq<Move>)
      requires selected.Valid()
      modifies this
      ensures selected.Valid() && selected.day == old(selected.day)
      ensures old(Within(selected, min, max)) && (forall m :: m in moves ==> !MovesBound(m)) ==>
                Within(selected, min, max)
    {
      for i := 0 to |moves|
        invariant selected.Valid() && selected.day == old(selected.day)
        invariant old(Within(selected, min, max)) && (forall m :: m in moves ==> !MovesBound(m)) ==>
                    Within(selected, min, max)
      {
        assert moves[i] in moves;
        Make(moves[i]);
      }
    }
  }

  /**
   * Where clicks go, said on the clock: an increment is `step` seconds later and a decrement earlier, up to whole
   * days, and the meridian changes while the time on a twelve-hour clock stays.
   */
  lemma ClicksOnTheClock(s: Spinner, step: int) returns (up: int, down: int)
    requires s.selected.Valid()
    ensures s.Target(Increment(step)) == Moment(s.selected.day, s.selected.second + step - up * 86400)
    ensures s.Target(Decrement(step)) == Moment(s.selected.day, s.selected.second - step - down * 86400)
    ensures 0 <= s.selected.second + step - up * 86400 < 86400 && 0 <= s.selected.second - step - down * 86400 < 86400
    ensures s.Target(ToggleMeridian)
         == Moment(s.selected.day, if s.selected.second < 43200 then s.selected.second + 43200
                                   else s.selected.second - 43200)
  {
    up := AddedSeconds(s.selected, step);
    down := AddedSeconds(s.selected, -step);
  }

  /** An increment and a decrement by the same step undo each other, wrapping included. */
  lemma StepsUndo(m: Moment, step: int)
    requires m.Valid()
    ensures AddSeconds(AddSeconds(m, step), -step) == m
  {
    var moved := AddSeconds(m, step);
    assert m.second + step == (m.second + step) / DAY * DAY + moved.second;
    assert moved.second - step == m.second - (m.second + step) / DAY * DAY;
  }
}
