/** The tab bar of `MainDialog` in ui.py: five buttons select a page of the
    stacked widget and show the blue line under the selected tab only; the
    home button and the constructor select the first tab. */
module UiTabs {
  const TabCount: nat := 5

  /** The number on a tab button, `b_tab_1` ... `b_tab_5`. */
  type TabNumber = k: int | 1 <= k <= TabCount witness 1

  /** The stacked widget's current index and whether `line_1` ... `line_5`
      are shown. */
  datatype TabView = TabView(index: int, lineShown: seq<bool>)

  datatype Click = Home | Tab(k: TabNumber)

  /** Exactly the line under the current page is shown. */
  predicate Consistent(v: TabView) {
    && 0 <= v.index < TabCount
    && |v.lineShown| == TabCount
    && forall i :: 0 <= i < TabCount ==> (v.lineShown[i] <==> i == v.index)
  }

  /** The page a click selects. */
  function Selected(c: Click): TabNumber {
    match c
    case Home => 1
    case Tab(k) => k
  }

  /** `b_home_1_click` and `b_tab_<k>_click`: the result does not depend on
      the previous view. */
  function OnClick(v: TabView, c: Click): (r: TabView)
    ensures Consistent(r)
    ensures r.index == Selected(c) - 1
  {
    var k := Selected(c);
    TabView(k - 1, seq(TabCount, i => i == k - 1))
  }

  /** What the constructor sets up (ui.py lines 99 to 104). */
  function Initial(): (v: TabView)
    ensures Consistent(v) && v.index == 0
  {
    TabView(0, [true, false, false, false, false])
  }

  /** The home button and the first tab button have the same effect, and
      both restore the view the constructor set up. */
  lemma HomeIsFirstTab(v: TabView)
    ensures OnClick(v, Home) == OnClick(v, Tab(1))
    ensures OnClick(v, Home) == Initial()
  {
    assert OnClick(v, Home).lineShown == Initial().lineShown;
  }

  /** Two views that are consistent and on the same page are equal: the
      page determines which lines are shown. */
  lemma ConsistentDeterminedByIndex(v: TabView, w: TabView)
    requires Consistent(v) && Consistent(w) && v.index == w.index
    ensures v == w
  {
    assert v.lineShown == w.lineShown;
  }

  /** The view after a click does not depend on the view before it. */
  lemma ClickForgetsHistory(v: TabView, w: TabView, c: Click)
    ensures OnClick(v, c) == OnClick(w, c)
  {
  }

  function Run(v: TabView, clicks: seq<Click>): TabView
    decreases |clicks|
  {
    if |clicks| == 0 then v else Run(OnClick(v, clicks[0]), clicks[1..])
  }

  /** After any sequence of clicks only the last one matters, and the view
      stays consistent. */
  lemma {:induction false} LastClickWins(v: TabView, clicks: seq<Click>)
    requires Consistent(v)
    ensures Consistent(Run(v, clicks))
    ensures |clicks| > 0 ==> Run(v, clicks).index == Selected(clicks[|clicks| - 1]) - 1
    ensures |clicks| == 0 ==> Run(v, clicks) == v
    decreases |clicks|
  {
    if |clicks| > 0 {
      LastClickWins(OnClick(v, clicks[0]), clicks[1..]);
      if |clicks| > 1 {
        assert clicks[1..][|clicks| - 2] == clicks[|clicks| - 1];
      }
    }
  }
}
