/**
 * The key-dispatch loop of `Chooser::present` (src/lib.rs:55-76) as a state
 * machine over the highlighted index, folded over a finite key sequence.
 */
module Navigation {

  /** Decoded key events; `Other` stands for every key the loop ignores by kind. */
  datatype Key = Up | Down | Left | Right | Esc | Char(c: char) | Ctrl(c: char) | Other

  /**
   * Where the loop stands: still reading (`Pending`, also the state when the
   * keys run out), or ended by confirmation or cancellation. Each carries
   * the highlighted index at that point.
   */
  datatype Outcome = Pending(index: nat) | Confirmed(index: nat) | Cancelled(index: nat)

  predicate IsUp(k: Key) { k == Up || k == Char('k') }
  predicate IsDown(k: Key) { k == Down || k == Char('j') }
  predicate IsConfirm(k: Key) { k == Char(' ') || k == Char('\n') }
  predicate IsCancel(k: Key) { k == Esc || k == Char('q') || k == Ctrl('c') }

  /** A key none of the arms of the loop reacts to. */
  predicate IsIgnored(k: Key) { !IsUp(k) && !IsDown(k) && !IsConfirm(k) && !IsCancel(k) }

  /** One key over a list of `n` choices highlighted at `cur`. */
  function Step(n: nat, cur: nat, k: Key): (o: Outcome)
    requires n > 0
    ensures cur < n ==> o.index < n
  {
    if IsUp(k) then
      Pending(if cur > 0 then cur - 1 else cur)
    else if IsDown(k) then
      Pending(if cur < n - 1 then cur + 1 else cur)
    else if IsConfirm(k) then
      Confirmed(cur)
    else if IsCancel(k) then
      Cancelled(cur)
    else
      Pending(cur)
  }

  /**
   * A key moves the highlight by exactly one row, and only an Up or Down
   * key that is not already at the matching end of the list does so.
   */
  lemma StepMovesOneRow(n: nat, cur: nat, k: Key)
    requires n > 0 && cur < n
    ensures var o := Step(n, cur, k);
            o.Pending? && o.index != cur <==>
              (IsUp(k) && cur > 0 && o.index + 1 == cur) || (IsDown(k) && cur + 1 < n && o.index == cur + 1)
    ensures var o := Step(n, cur, k);
            !o.Pending? <==> IsConfirm(k) || IsCancel(k)
  {
  }

  /** The loop over `keys`: the first confirmation or cancellation ends it. */
  function Run(n: nat, cur: nat, keys: seq<Key>): (o: Outcome)
    requires n > 0
    ensures cur < n ==> o.index < n
    decreases |keys|
  {
    if keys == [] then Pending(cur)
    else
      match Step(n, cur, keys[0])
      case Pending(c) => Run(n, c, keys[1..])
      case Confirmed(c) => Confirmed(c)
      case Cancelled(c) => Cancelled(c)
  }

  /** Running two key sequences one after the other. */
  lemma {:induction false} RunAppend(n: nat, cur: nat, a: seq<Key>, b: seq<Key>)
    requires n > 0
    ensures Run(n, cur, a + b) == match Run(n, cur, a)
                                  case Pending(c) => Run(n, c, b)
                                  case other => other
    decreases |a|
  {
    if a == [] {
      assert a + b == b;
    } else {
      assert (a + b)[0] == a[0];
      assert (a + b)[1..] == a[1..] + b;
      match Step(n, cur, a[0])
      case Pending(c) => RunAppend(n, c, a[1..], b);
      case Confirmed(c) =>
      case Cancelled(c) =>
    }
  }

  /** Once confirmed, the loop ends at that index; later keys are never read. */
  lemma ConfirmIsFinal(n: nat, cur: nat, before: seq<Key>, k: Key, after: seq<Key>)
    requires n > 0 && IsConfirm(k) && Run(n, cur, before).Pending?
    ensures Run(n, cur, before + [k] + after) == Confirmed(Run(n, cur, before).index)
  {
    RunAppend(n, cur, before, [k] + after);
    assert before + [k] + after == before + ([k] + after);
  }

  /** Cancelling ends the loop without a result whatever the index. */
  lemma CancelIsFinal(n: nat, cur: nat, before: seq<Key>, k: Key, after: seq<Key>)
    requires n > 0 && IsCancel(k) && Run(n, cur, before).Pending?
    ensures Run(n, cur, before + [k] + after).Cancelled?
  {
    RunAppend(n, cur, before, [k] + after);
    assert before + [k] + after == before + ([k] + after);
  }

  /** Keys the loop does not react to leave the index where it was. */
  lemma {:induction false} IgnoredKeysChangeNothing(n: nat, cur: nat, keys: seq<Key>)
    requires n > 0
    requires forall k :: k in keys ==> IsIgnored(k)
    ensures Run(n, cur, keys) == Pending(cur)
    decreases |keys|
  {
    if keys != [] {
      assert keys[0] in keys;
      IgnoredKeysChangeNothing(n, cur, keys[1..]);
    }
  }

  /** `k` copies of key `key`. */
  function Repeat(key: Key, k: nat): (r: seq<Key>)
    ensures |r| == k
  {
    if k == 0 then [] else [key] + Repeat(key, k - 1)
  }

  /** Pressing Up `k` times moves up `k` rows, stopping at the first choice. */
  lemma {:induction false} UpsStopAtTop(n: nat, cur: nat, k: nat)
    requires n > 0 && cur < n
    ensures Run(n, cur, Repeat(Up, k)) == Pending(if cur >= k then cur - k else 0)
    decreases k
  {
    if k > 0 {
      UpsStopAtTop(n, if cur > 0 then cur - 1 else cur, k - 1);
    }
  }

  /** Pressing Down `k` times moves down `k` rows, stopping at the last choice. */
  lemma {:induction false} DownsStopAtBottom(n: nat, cur: nat, k: nat)
    requires n > 0 && cur < n
    ensures Run(n, cur, Repeat(Down, k)) == Pending(if cur + k < n then cur + k else n - 1)
    decreases k
  {
    if k > 0 {
      DownsStopAtBottom(n, if cur < n - 1 then cur + 1 else cur, k - 1);
    }
  }

  /** ["a","b","c"] from 0 with Down, Down, Enter confirms index 2. */
  lemma ScenarioDownDownEnter()
    ensures Run(3, 0, [Down, Down, Char('\n')]) == Confirmed(2)
  {
  }

  /** ["a","b","c"] from 2 with Up three times and Enter confirms index 0. */
  lemma ScenarioUpsClampAtTop()
    ensures Run(3, 2, [Up, Up, Up, Char('\n')]) == Confirmed(0)
  {
  }

  /** A single choice: Up and Down are no-ops. */
  lemma ScenarioSingleChoice()
    ensures Run(1, 0, [Up, Down, Char('\n')]) == Confirmed(0)
  {
  }
}
