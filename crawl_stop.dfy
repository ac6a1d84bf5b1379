/** When the "抓取全部回答" crawl stops (src/index.ts, the click handler of
    `processQuestionPage`). Each round scrolls, waits, and then looks at the
    page: its height, whether the load-more bar now reads "收起", and whether
    the bottom "写回答" bar has appeared. The crawl ends when the height has
    stayed the same for three rounds in a row, or at the first round that
    shows the "收起" bar or the bottom bar. What each round observes is an
    input here; scrolling, waiting and clicking are not modelled. */
module CrawlStop {
  import opened Wrappers
  import opened JsText

  const MaxConsecutiveNoChange: nat := 3
  const CollapseText: string := "收起"

  /** What one round sees after scrolling: `document.body.scrollHeight`,
      the text of `.QuestionMainAction` if present, and whether the bottom
      bar is present. */
  datatype Observation = Observation(height: nat, mainActionText: string, hasMainAction: bool, bottomBarShown: bool)

  datatype StopReason = HeightStable | CollapseShown | BottomBarShown

  /** Where the crawl is after the given rounds: stopped in round `round`,
      or still going with its two counters. */
  datatype CrawlState = Stopped(round: nat, reason: StopReason) | Running(lastHeight: nat, consecutiveNoChange: nat)

  /** `lastHeight` after the given rounds: the latest height, 0 before any. */
  function LastHeight(rounds: seq<Observation>): nat {
    if rounds == [] then 0 else rounds[|rounds| - 1].height
  }

  /** `consecutiveNoChange` after the given rounds: one more when the height
      repeats the previous one, back to 0 when it changes. */
  function NoChangeCount(rounds: seq<Observation>): (count: nat)
    ensures count <= |rounds|
    ensures rounds != [] && !Repeats(rounds, |rounds| - 1) ==> count == 0
    decreases |rounds|
  {
    if rounds == [] then 0
    else
      var before := rounds[..|rounds| - 1];
      if rounds[|rounds| - 1].height == LastHeight(before) then NoChangeCount(before) + 1 else 0
  }

  /** The height in round `i` equals the one before it (0 before round 0). */
  predicate Repeats(rounds: seq<Observation>, i: nat)
    requires i < |rounds|
  {
    rounds[i].height == LastHeight(rounds[..i])
  }

  predicate CollapseVisible(o: Observation) {
    o.hasMainAction && Includes(o.mainActionText, CollapseText)
  }

  /** Why round `r` ends the crawl, if it does; the height check comes
      first, then the "收起" bar, then the bottom bar. */
  function StopAt(rounds: seq<Observation>, r: nat): (reason: Option<StopReason>)
    requires r < |rounds|
    ensures reason == Some(HeightStable) <==> NoChangeCount(rounds[..r + 1]) >= MaxConsecutiveNoChange
    ensures reason.None? <==>
              NoChangeCount(rounds[..r + 1]) < MaxConsecutiveNoChange && !CollapseVisible(rounds[r]) && !rounds[r].bottomBarShown
    ensures reason == Some(CollapseShown) ==>
              NoChangeCount(rounds[..r + 1]) < MaxConsecutiveNoChange && CollapseVisible(rounds[r])
    ensures reason == Some(BottomBarShown) ==> rounds[r].bottomBarShown && !CollapseVisible(rounds[r])
  {
    if NoChangeCount(rounds[..r + 1]) >= MaxConsecutiveNoChange then Some(HeightStable)
    else if CollapseVisible(rounds[r]) then Some(CollapseShown)
    else if rounds[r].bottomBarShown then Some(BottomBarShown)
    else None
  }

  /** The counter is at least `n` exactly when each of the last `n` rounds
      repeated the height before it. */
  lemma {:induction false} NoChangeCountMeansRepeats(rounds: seq<Observation>, n: nat)
    ensures NoChangeCount(rounds) >= n <==>
              n <= |rounds| && forall i :: |rounds| - n <= i < |rounds| ==> Repeats(rounds, i)
    decreases |rounds|
  {
    if rounds != [] && n > 0 {
      var before := rounds[..|rounds| - 1];
      NoChangeCountMeansRepeats(before, n - 1);
      forall i | 0 <= i < |before| ensures Repeats(before, i) <==> Repeats(rounds, i) {
        assert before[..i] == rounds[..i];
      }
      var last := |rounds| - 1;
      assert rounds[..last] == before;
      if Repeats(rounds, last) {
        assert NoChangeCount(rounds) == NoChangeCount(before) + 1;
      } else {
        assert NoChangeCount(rounds) == 0;
      }
    }
  }

  /** The crawl stops for a stable height in round `r` exactly when rounds
      `r - 2`, `r - 1` and `r` all saw the height of the round before. */
  lemma {:induction false} HeightStableMeansThreeRepeats(rounds: seq<Observation>, r: nat)
    requires r < |rounds|
    ensures NoChangeCount(rounds[..r + 1]) >= MaxConsecutiveNoChange <==>
              r >= 2 && Repeats(rounds, r - 2) && Repeats(rounds, r - 1) && Repeats(rounds, r)
  {
    var p := rounds[..r + 1];
    NoChangeCountMeansRepeats(p, 3);
    forall i | 0 <= i <= r ensures Repeats(p, i) <==> Repeats(rounds, i) {
      assert p[..i] == rounds[..i];
    }
  }

  /** A page that keeps growing never stops the crawl by height. */
  lemma {:induction false} GrowingPageNeverStable(rounds: seq<Observation>, r: nat)
    requires r < |rounds| && rounds[0].height > 0
    requires forall i :: 0 < i < |rounds| ==> rounds[i - 1].height < rounds[i].height
    ensures StopAt(rounds, r) != Some(HeightStable)
  {
    HeightStableMeansThreeRepeats(rounds, r);
    if r >= 2 {
      assert rounds[..r][..r] == rounds[..r];
      assert !Repeats(rounds, r);
    }
  }

  /** The crawl loop, run over the rounds observed so far. */
  method Crawl(rounds: seq<Observation>) returns (state: CrawlState)
    ensures state.Stopped? ==>
              state.round < |rounds| && StopAt(rounds, state.round) == Some(state.reason) &&
              forall r :: 0 <= r < state.round ==> StopAt(rounds, r).None?
    ensures state.Running? ==>
              (forall r :: 0 <= r < |rounds| ==> StopAt(rounds, r).None?) &&
              state.lastHeight == LastHeight(rounds) &&
              state.consecutiveNoChange == NoChangeCount(rounds) &&
              state.consecutiveNoChange < MaxConsecutiveNoChange
  {
    var lastHeight := 0;
    var consecutiveNoChange := 0;
    var round := 0;
    while round < |rounds|
      invariant 0 <= round <= |rounds|
      invariant lastHeight == LastHeight(rounds[..round])
      invariant consecutiveNoChange == NoChangeCount(rounds[..round])
      invariant consecutiveNoChange < MaxConsecutiveNoChange
      invariant forall r :: 0 <= r < round ==> StopAt(rounds, r).None?
    {
      assert rounds[..round + 1][..round] == rounds[..round];
      var currentHeight := rounds[round].height;
      if currentHeight == lastHeight {
        consecutiveNoChange := consecutiveNoChange + 1;
        if consecutiveNoChange >= MaxConsecutiveNoChange {
          return Stopped(round, HeightStable);
        }
      } else {
        consecutiveNoChange := 0;
      }
      lastHeight := currentHeight;
      var o := rounds[round];
      if o.hasMainAction && Includes(o.mainActionText, CollapseText) {
        return Stopped(round, CollapseShown);
      }
      if o.bottomBarShown {
        return Stopped(round, BottomBarShown);
      }
      round := round + 1;
    }
    assert rounds[..round] == rounds;
    return Running(lastHeight, consecutiveNoChange);
  }
}
