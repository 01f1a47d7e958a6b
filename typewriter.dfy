/**
 * The typewriter animation of the portfolio page: a closure over three variables
 * (`rIndex`, `cIndex`, `deleting`) that every timer tick advances by one character,
 * typing a phrase out and deleting it again, then moving on to the next phrase.
 *
 * `Step` is the specification of one tick on a pure cursor value; the class
 * `Animation` holds the mutable closure state and its `Tick` method is proved
 * to perform exactly `Step`. The rescheduling through `setTimeout` is replaced by
 * the delay that `Tick` returns.
 */
module Typewriter {
  import opened Wrappers

  /** The phrases the page cycles through, in order. */
  const Roles: seq<string> := ["Cloud & IoT Developer", "Full-Stack Developer", "Problem Solver"]

  /** The delays (in milliseconds) a tick can ask for before the next one. */
  const TypeDelay := 120
  const PauseAfterTyping := 1200
  const DeleteDelay := 60
  const PauseAfterDeleting := 200

  /** A phrase list the animation can run on: at least one phrase, and no empty phrase. */
  predicate WellFormed(roles: seq<string>) {
    |roles| > 0 && forall i :: 0 <= i < |roles| ==> |roles[i]| > 0
  }

  /** The closure state: phrase index, number of characters shown, and the phase. */
  datatype Cursor = Cursor(rIndex: int, cIndex: int, deleting: bool)

  /** What one tick does: the next cursor, the text it displays, the delay it schedules. */
  datatype TickResult = TickResult(next: Cursor, shown: string, delay: nat)

  /**
   * The invariant of a running animation. While typing, fewer characters than the
   * whole phrase are shown; while deleting, at least one and at most all of them.
   * It implies the bound 0 <= cIndex <= |roles[rIndex]|.
   */
  predicate Inv(roles: seq<string>, c: Cursor) {
    && 0 <= c.rIndex < |roles|
    && (if c.deleting then 1 <= c.cIndex <= |roles[c.rIndex]|
        else 0 <= c.cIndex < |roles[c.rIndex]|)
  }

  /**
   * JavaScript's `s.slice(0, end)`: a negative end counts from the back of the
   * string, and the end is clamped to the string.
   */
  function Slice(s: string, end: int): (r: string)
    ensures r <= s
    ensures 0 <= end <= |s| ==> |r| == end
    ensures end < 0 ==> |r| == if |s| + end <= 0 then 0 else |s| + end
    ensures |s| < end ==> r == s
  {
    if end < 0 then (if |s| + end <= 0 then [] else s[..|s| + end])
    else if end > |s| then s
    else s[..end]
  }

  /**
   * One tick of the animation (the target element present). The phrase is read
   * before any change, the cursor moves one character, the phase flips at the
   * ends, the phrase index wraps modulo the number of phrases, and the delay
   * until the next tick depends on the transition taken.
   */
  function Step(roles: seq<string>, c: Cursor): (t: TickResult)
    requires 0 <= c.rIndex < |roles|
    // typing: one more character; pause 1200 ms once the whole phrase is shown
    ensures !c.deleting ==>
              && t.next.rIndex == c.rIndex
              && t.next.cIndex == c.cIndex + 1
              && t.next.deleting == (c.cIndex + 1 >= |roles[c.rIndex]|)
              && t.delay == (if t.next.deleting then PauseAfterTyping else TypeDelay)
    // deleting: one character less; at zero move on to the next phrase and pause 200 ms
    ensures c.deleting ==>
              && t.next.cIndex == c.cIndex - 1
              && (if c.cIndex - 1 <= 0
                  then t.next.rIndex == (c.rIndex + 1) % |roles| && !t.next.deleting
                       && t.delay == PauseAfterDeleting
                  else t.next.rIndex == c.rIndex && t.next.deleting && t.delay == DeleteDelay)
    ensures t.delay in {TypeDelay, PauseAfterTyping, DeleteDelay, PauseAfterDeleting}
    // the displayed text is always a prefix of the phrase read before the tick
    ensures t.shown <= roles[c.rIndex]
    // on a well-formed list the invariant is kept, and the display is exactly cIndex characters
    ensures WellFormed(roles) && Inv(roles, c) ==>
              && Inv(roles, t.next)
              && |t.shown| == t.next.cIndex
              && t.shown == roles[t.next.rIndex][..t.next.cIndex]
  {
    var full := roles[c.rIndex];
    if c.deleting then
      var n := c.cIndex - 1;
      if n <= 0 then TickResult(Cursor((c.rIndex + 1) % |roles|, n, false), Slice(full, n), PauseAfterDeleting)
      else TickResult(Cursor(c.rIndex, n, true), Slice(full, n), DeleteDelay)
    else
      var n := c.cIndex + 1;
      if n >= |full| then TickResult(Cursor(c.rIndex, n, true), Slice(full, n), PauseAfterTyping)
      else TickResult(Cursor(c.rIndex, n, false), Slice(full, n), TypeDelay)
  }

  /** The cursor after `k` ticks; the invariant holds after any number of ticks. */
  function Ticks(roles: seq<string>, c: Cursor, k: nat): (r: Cursor)
    requires WellFormed(roles) && Inv(roles, c)
    ensures Inv(roles, r)
    ensures 0 <= r.cIndex <= |roles[r.rIndex]|
    decreases k
  {
    if k == 0 then c else Ticks(roles, Step(roles, c).next, k - 1)
  }

  /** The total delay scheduled by `k` ticks starting from `c`. */
  function Elapsed(roles: seq<string>, c: Cursor, k: nat): nat
    requires WellFormed(roles) && Inv(roles, c)
    decreases k
  {
    if k == 0 then 0 else Step(roles, c).delay + Elapsed(roles, Step(roles, c).next, k - 1)
  }

  /** The state the page starts from. */
  const Start := Cursor(0, 0, false)

  /** From the start, after any number of ticks, both indices stay within bounds. */
  lemma {:induction false} ReachableInBounds(roles: seq<string>, k: nat)
    requires WellFormed(roles)
    ensures var c := Ticks(roles, Start, k);
            0 <= c.rIndex < |roles| && 0 <= c.cIndex <= |roles[c.rIndex]|
  {
  }

  /** Running `a` ticks and then `b` more is running `a + b` ticks. */
  lemma {:induction false} TicksAdd(roles: seq<string>, c: Cursor, a: nat, b: nat)
    requires WellFormed(roles) && Inv(roles, c)
    ensures Ticks(roles, c, a + b) == Ticks(roles, Ticks(roles, c, a), b)
    ensures Elapsed(roles, c, a + b) == Elapsed(roles, c, a) + Elapsed(roles, Ticks(roles, c, a), b)
    decreases a
  {
    if a > 0 {
      TicksAdd(roles, Step(roles, c).next, a - 1, b);
    }
  }

  /**
   * Typing phase: `k` ticks from `c0` typed characters of phrase `r` show `c0 + k`
   * characters, each tick waiting 120 ms except the one completing the phrase,
   * which switches to deleting and waits 1200 ms.
   */
  lemma {:induction false} TypingRun(roles: seq<string>, r: int, c0: int, k: nat)
    requires WellFormed(roles) && 0 <= r < |roles|
    requires 0 <= c0 < |roles[r]| && c0 + k <= |roles[r]|
    ensures Ticks(roles, Cursor(r, c0, false), k) == Cursor(r, c0 + k, c0 + k == |roles[r]|)
    ensures Elapsed(roles, Cursor(r, c0, false), k)
            == TypeDelay * k + (if c0 + k == |roles[r]| then PauseAfterTyping - TypeDelay else 0)
    decreases k
  {
    if k > 0 && c0 + 1 < |roles[r]| {
      TypingRun(roles, r, c0 + 1, k - 1);
    }
  }

  /**
   * Deleting phase: `k` ticks from `c0` shown characters of phrase `r` remove `k`
   * of them at 60 ms each; the tick that reaches zero moves to the next phrase,
   * switches to typing and waits 200 ms.
   */
  lemma {:induction false} DeletingRun(roles: seq<string>, r: int, c0: int, k: nat)
    requires WellFormed(roles) && 0 <= r < |roles|
    requires 1 <= c0 <= |roles[r]| && k <= c0
    ensures Ticks(roles, Cursor(r, c0, true), k)
            == if k == c0 then Cursor((r + 1) % |roles|, 0, false) else Cursor(r, c0 - k, true)
    ensures Elapsed(roles, Cursor(r, c0, true), k)
            == DeleteDelay * k + (if k == c0 then PauseAfterDeleting - DeleteDelay else 0)
    decreases k
  {
    if k > 0 && c0 > 1 {
      DeletingRun(roles, r, c0 - 1, k - 1);
    }
  }

  /**
   * A full cycle: `2 * |phrase|` ticks from the empty display of phrase `r` type it
   * out, delete it, and end on the empty display of the next phrase (wrapping
   * around), having waited 180 ms per character plus 1220 ms.
   */
  lemma {:induction false} FullCycle(roles: seq<string>, r: int)
    requires WellFormed(roles) && 0 <= r < |roles|
    ensures Ticks(roles, Cursor(r, 0, false), 2 * |roles[r]|) == Cursor((r + 1) % |roles|, 0, false)
    ensures Elapsed(roles, Cursor(r, 0, false), 2 * |roles[r]|) == 180 * |roles[r]| + 1220
  {
    var n := |roles[r]|;
    TypingRun(roles, r, 0, n);
    TicksAdd(roles, Cursor(r, 0, false), n, n);
    DeletingRun(roles, r, n, n);
  }

  /**
   * Why the phrases must be non-empty: typing increments before it compares, so on
   * an empty phrase the first tick shows one character more than the phrase has.
   */
  lemma EmptyPhraseOvershoots()
    ensures var t := Step([""], Start);
            t.next == Cursor(0, 1, true) && t.next.cIndex > |""| && !Inv([""], t.next)
  {
  }

  /**
   * The closure of the page's typing effect. `hasTarget` is whether the element
   * `#typed` exists; `text` is its text content.
   */
  class Animation {
    const roles: seq<string>
    const hasTarget: bool
    var rIndex: int
    var cIndex: int
    var deleting: bool
    var text: string

    ghost predicate Valid()
      reads this
    {
      WellFormed(roles) && Inv(roles, Cursor(rIndex, cIndex, deleting))
    }

    function State(): Cursor
      reads this
    {
      Cursor(rIndex, cIndex, deleting)
    }

    /** The page's phrase list, starting at the first phrase with nothing typed. */
    constructor (hasTarget: bool, initialText: string)
      ensures Valid() && roles == Roles && this.hasTarget == hasTarget
      ensures State() == Start && text == initialText
    {
      roles := Roles;
      this.hasTarget := hasTarget;
      rIndex, cIndex, deleting := 0, 0, false;
      text := initialText;
    }

    /**
     * One timer tick. Without the target element nothing changes and nothing is
     * scheduled; otherwise the state and the display advance as `Step` says and
     * the delay of the next tick is returned.
     */
    method Tick() returns (delay: Option<nat>)
      requires Valid()
      modifies this
      ensures Valid()
      ensures !hasTarget ==> delay == None && unchanged(this)
      ensures hasTarget ==>
                var t := Step(roles, old(State()));
                State() == t.next && text == t.shown && delay == Some(t.delay)
      ensures hasTarget ==> text == roles[rIndex][..cIndex]
    {
      if !hasTarget {
        return None;
      }
      var full := roles[rIndex];
      if deleting {
        cIndex := cIndex - 1;
        text := Slice(full, cIndex);
        if cIndex <= 0 {
          deleting := false;
          rIndex := (rIndex + 1) % |roles|;
          return Some(PauseAfterDeleting);
        }
        return Some(DeleteDelay);
      } else {
        cIndex := cIndex + 1;
        text := Slice(full, cIndex);
        if cIndex >= |full| {
          deleting := true;
          return Some(PauseAfterTyping);
        }
        return Some(TypeDelay);
      }
    }
  }
}
