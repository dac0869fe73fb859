/**
 The frequently-asked-questions dialog: an accordion of eight questions in
 which at most one answer is open, kept as a single optional index.
 */
module Faq {
  import opened Wrappers

  /** The number of questions the dialog lists. */
  const QuestionCount: nat := 8

  /** The open question, if any. */
  type OpenState = Option<nat>

  /** The dialog starts with every answer folded away. */
  const Initial: OpenState := None

  /** `toggleFAQ`: clicking the open question closes it; clicking any other
      opens that one instead. */
  function Toggle(s: OpenState, index: nat): (r: OpenState)
    ensures s == Some(index) ==> r == None
    ensures s != Some(index) ==> r == Some(index)
  {
    if s == Some(index) then None else Some(index)
  }

  /** An answer is shown exactly when its index is the open one. */
  predicate Visible(s: OpenState, index: nat) {
    s == Some(index)
  }

  /** The indices whose answers are shown. */
  function Shown(s: OpenState): (r: set<nat>)
    ensures forall i :: i in r <==> Visible(s, i)
    ensures |r| <= 1
  {
    match s
    case None => {}
    case Some(i) => {i}
  }

  lemma NothingShownInitially(index: nat)
    ensures !Visible(Initial, index)
    ensures Shown(Initial) == {}
  {
  }

  /** At most one answer is ever shown. */
  lemma AtMostOneVisible(s: OpenState, i: nat, j: nat)
    requires Visible(s, i) && Visible(s, j)
    ensures i == j
  {
  }

  /** After a click, the clicked answer is shown unless it was the one
      already open, and no other answer is shown. */
  lemma ToggleShows(s: OpenState, index: nat, other: nat)
    requires other != index
    ensures Visible(Toggle(s, index), index) <==> !Visible(s, index)
    ensures !Visible(Toggle(s, index), other)
  {
  }

  /** Clicking the same question twice returns to where it started exactly
      when nothing was open or that very question was; clicking it twice
      while another one is open leaves the other closed. */
  lemma ToggleTwice(s: OpenState, index: nat)
    ensures Toggle(Toggle(s, index), index) == s <==> (s == None || s == Some(index))
    ensures s == None ==> Toggle(Toggle(s, index), index) == None
  {
  }

  /** Clicks on the listed questions only ever open a listed question. */
  lemma {:induction false} ClicksStayInRange(s: OpenState, clicks: seq<nat>)
    requires s == None || s.value < QuestionCount
    requires forall k :: 0 <= k < |clicks| ==> clicks[k] < QuestionCount
    ensures var t := Replay(s, clicks); t == None || t.value < QuestionCount
    decreases |clicks|
  {
    if clicks != [] {
      ClicksStayInRange(Toggle(s, clicks[0]), clicks[1..]);
    }
  }

  /** The state after a run of clicks. */
  function Replay(s: OpenState, clicks: seq<nat>): OpenState
    decreases |clicks|
  {
    if clicks == [] then s else Replay(Toggle(s, clicks[0]), clicks[1..])
  }

  /** A run of clicks with one more at its end is the run followed by that
      click. */
  lemma {:induction false} ReplayLast(s: OpenState, clicks: seq<nat>, index: nat)
    ensures Replay(s, clicks + [index]) == Toggle(Replay(s, clicks), index)
    decreases |clicks|
  {
    if clicks != [] {
      assert (clicks + [index])[1..] == clicks[1..] + [index];
      ReplayLast(Toggle(s, clicks[0]), clicks[1..], index);
    }
  }

  /** Clicking one question n times in a row, starting from the folded
      dialog, leaves its answer open exactly when n is odd. */
  lemma {:induction false} RepeatedClicks(index: nat, n: nat)
    ensures Replay(Initial, seq(n, _ => index)) == (if n % 2 == 1 then Some(index) else None)
    decreases n
  {
    if n > 0 {
      var run := seq(n - 1, _ => index);
      assert seq(n, _ => index) == run + [index];
      RepeatedClicks(index, n - 1);
      ReplayLast(Initial, run, index);
    }
  }
}
