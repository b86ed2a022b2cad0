/**
 * Winner selection: `selectWinners` shuffles the roster and takes a prefix, and
 * the two callers apply different quota policies.
 */
module Winners {
  import opened Roster

  /**
   * The shuffle `[...participants].sort(() => 0.5 - Math.random())` is some reordering
   * of the roster; which one is left open, so every draw below holds for all of them.
   */
  ghost predicate IsShuffleOf(shuffled: seq<UserId>, participants: seq<UserId>) {
    multiset(shuffled) == multiset(participants)
  }

  /**
   * The end index of `slice(0, Math.min(count, n))` on an array of length `n`; a
   * negative end counts back from the length, as `slice` does.
   */
  function DrawSize(n: nat, count: int): (k: nat)
    ensures k <= n
    ensures count >= 0 ==> k == if count < n then count else n
  {
    var end := if count < n then count else n;
    if end >= 0 then end else if n + end >= 0 then n + end else 0
  }

  /** A prefix of a shuffle draws from the roster, and never draws anyone twice from a duplicate-free roster. */
  lemma ShufflePrefix(participants: seq<UserId>, shuffled: seq<UserId>, k: nat)
    requires IsShuffleOf(shuffled, participants) && k <= |shuffled|
    ensures multiset(shuffled[..k]) <= multiset(participants)
    ensures Distinct(participants) ==> Distinct(shuffled[..k])
  {
    assert shuffled == shuffled[..k] + shuffled[k..];
    if Distinct(participants) {
      DistinctPermutation(participants, shuffled);
    }
  }

  /**
   * selectWinners (index.js:48-51).  For a positive count the draw has exactly
   * `min(count, |participants|)` entries, all taken from the roster and, when the
   * roster is duplicate-free, all different.
   */
  function SelectWinners(participants: seq<UserId>, count: int, shuffled: seq<UserId>): (w: seq<UserId>)
    requires IsShuffleOf(shuffled, participants)
    ensures count >= 1 ==> |w| == if count < |participants| then count else |participants|
    ensures multiset(w) <= multiset(participants)
    ensures forall u :: u in w ==> u in participants
    ensures Distinct(participants) ==> Distinct(w)
  {
    assert |shuffled| == |participants| by {
      assert |multiset(shuffled)| == |multiset(participants)|;
    }
    var k := DrawSize(|participants|, count);
    ShufflePrefix(participants, shuffled, k);
    var w := shuffled[..k];
    assert forall u :: u in w ==> u in multiset(w);
    w
  }

  /**
   * The draw of `endGiveaway` (index.js:62-65): nobody when the roster is smaller than
   * the quota, otherwise exactly `quota` entries from the roster.
   */
  function EndDraw(participants: seq<UserId>, quota: int, shuffled: seq<UserId>): (w: seq<UserId>)
    requires IsShuffleOf(shuffled, participants)
    ensures |participants| < quota ==> w == []
    ensures 1 <= quota <= |participants| ==> |w| == quota
    ensures forall u :: u in w ==> u in participants
    ensures Distinct(participants) ==> Distinct(w)
  {
    if |participants| >= quota then SelectWinners(participants, quota, shuffled) else []
  }

  /**
   * The draw of `greroll` (index.js:284-286) skips the quota check: a non-empty roster
   * smaller than the quota yields a partial draw of the whole roster's size.
   */
  lemma RerollDrawSize(participants: seq<UserId>, quota: int, shuffled: seq<UserId>)
    requires IsShuffleOf(shuffled, participants)
    requires 1 <= |participants| && quota >= 1
    ensures 1 <= |SelectWinners(participants, quota, shuffled)| <= quota
    ensures |participants| < quota ==> |SelectWinners(participants, quota, shuffled)| == |participants|
    ensures |participants| < quota ==> EndDraw(participants, quota, shuffled) == []
  {
  }
}
