/**
 * Filtering of the project cards. A card's `data-category` attribute lists category
 * names; a filter button shows the cards of its category, or all of them. A transition
 * sorts the cards into those to reveal and those to hide, and a run counter makes a
 * transition that a newer click has overtaken leave the cards alone when it finishes.
 * The FLIP animation of a moving card scales it by a clamped ratio of its old and new
 * sizes.
 */
module ProjectFilter {
  import opened Wrappers
  import opened JsText
  import opened JsNumber

  // ---------------------------------------------------------------------------
  // Category names
  // ---------------------------------------------------------------------------

  /** The separators of a category list: the characters of `[\s,|]`. */
  predicate IsSeparator(c: char) {
    IsWhitespace(c) || c == ',' || c == '|'
  }

  predicate NoSeparator(s: string) {
    forall i :: 0 <= i < |s| ==> !IsSeparator(s[i])
  }

  /** No upper-case ASCII letter: what `toLowerCase()` produces. */
  predicate IsLower(s: string) {
    forall i :: 0 <= i < |s| ==> !IsUpperAscii(s[i])
  }

  /** What a category of a card can look like. */
  predicate IsCategoryName(t: string) {
    t != "" && NoSeparator(t) && IsLower(t)
  }

  /** The position of the first separator, or `|s|` when there is none. */
  function FirstSeparator(s: string): (k: nat)
    ensures k <= |s|
    ensures NoSeparator(s[..k])
    ensures k < |s| ==> IsSeparator(s[k])
  {
    if |s| == 0 || IsSeparator(s[0]) then 0
    else
      var k := 1 + FirstSeparator(s[1..]);
      assert s[..k] == [s[0]] + s[1..][..k - 1];
      k
  }

  /** The end of the run of separators that starts at `k`. */
  function RunEnd(s: string, k: nat): (j: nat)
    requires k <= |s|
    ensures k <= j <= |s|
    ensures forall i :: k <= i < j ==> IsSeparator(s[i])
    ensures j < |s| ==> !IsSeparator(s[j])
    decreases |s| - k
  {
    if k < |s| && IsSeparator(s[k]) then RunEnd(s, k + 1) else k
  }

  /** `s.split(/[\s,|]+/)`: the pieces between maximal runs of separators. A run at
      either end leaves an empty piece there; no other piece is empty, and no piece
      holds a separator or a character that is not in `s`. */
  function SplitOnRuns(s: string): (parts: seq<string>)
    ensures |parts| >= 1
    ensures forall i :: 0 <= i < |parts| ==> NoSeparator(parts[i])
    ensures forall i :: 0 < i < |parts| - 1 ==> parts[i] != ""
    ensures |s| > 0 && !IsSeparator(s[0]) ==> parts[0] != ""
    ensures IsLower(s) ==> forall i :: 0 <= i < |parts| ==> IsLower(parts[i])
    ensures SplitsInto(s, parts)
    decreases |s|
  {
    var k := FirstSeparator(s);
    if k == |s| then
      SplitsIntoWhole(s);
      [s]
    else
      var j := RunEnd(s, k);
      var rest := SplitOnRuns(s[j..]);
      SplitAfterRun(s, k, j, rest);
      [s[..k]] + rest
  }

  /** A maximal run of separators as the pattern `[\s,|]+` matches it: one or more. */
  predicate IsRun(r: string) {
    r != "" && forall i :: 0 <= i < |r| ==> IsSeparator(r[i])
  }

  /** `parts[0] + runs[0] + parts[1] + ... + parts[n - 1]`. */
  function Interleave(parts: seq<string>, runs: seq<string>): string
    requires |parts| == |runs| + 1
    decreases |runs|
  {
    if |runs| == 0 then parts[0] else parts[0] + runs[0] + Interleave(parts[1..], runs[1..])
  }

  /** `s` is `parts` put back together with runs of separators between them. */
  ghost predicate SplitsInto(s: string, parts: seq<string>) {
    exists runs: seq<string> :: SplitsWith(s, parts, runs)
  }

  /** `s` is `parts` put back together with the separator runs `runs` between them. */
  predicate SplitsWith(s: string, parts: seq<string>, runs: seq<string>) {
    && |parts| == |runs| + 1
    && (forall i :: 0 <= i < |runs| ==> IsRun(runs[i]))
    && Interleave(parts, runs) == s
  }

  /** `parts` are the maximal separator-free stretches of `s`: free of separators and
      put back together with runs of separators they give `s`; only the first and the
      last may be empty. `PiecesAreTheSplit` shows there is exactly one such list. */
  ghost predicate PiecesOf(s: string, parts: seq<string>) {
    && SplitsInto(s, parts)
    && (forall i :: 0 <= i < |parts| ==> NoSeparator(parts[i]))
    && (forall i :: 0 < i < |parts| - 1 ==> parts[i] != "")
  }

  /** A text with no run is its own single piece. */
  lemma SplitsIntoWhole(s: string)
    ensures SplitsInto(s, [s])
  {
    assert SplitsWith(s, [s], []);
  }

  /** The text is the pieces before its first run, that run, and the pieces of what
      follows. */
  lemma SplitAfterRun(s: string, k: nat, j: nat, rest: seq<string>)
    requires k < j <= |s| && IsRun(s[k..j]) && SplitsInto(s[j..], rest)
    ensures SplitsInto(s, [s[..k]] + rest)
  {
    var runs' :| SplitsWith(s[j..], rest, runs');
    SplitStep(s, k, j, rest, runs');
  }

  /** The decomposition into maximal separator-free stretches is unique: any list of
      pieces that fits `PiecesOf` is the one `split(/[\s,|]+/)` returns. */
  lemma {:induction false} PiecesAreTheSplit(s: string, parts: seq<string>)
    requires PiecesOf(s, parts)
    ensures parts == SplitOnRuns(s)
    decreases |s|
  {
    var runs :| SplitsWith(s, parts, runs);
    if |runs| == 0 {
      FirstSeparatorNone(s);
    } else {
      var rest := Interleave(parts[1..], runs[1..]);
      FirstRunOf(s, parts, runs);
      assert PiecesOf(rest, parts[1..]) by {
        assert forall i :: 0 <= i < |runs[1..]| ==> IsRun(runs[1..][i]);
        assert SplitsWith(rest, parts[1..], runs[1..]);
      }
      PiecesAreTheSplit(rest, parts[1..]);
    }
  }

  /** In such a decomposition the first run is the first maximal run of `s`. */
  lemma FirstRunOf(s: string, parts: seq<string>, runs: seq<string>)
    requires |parts| == |runs| + 1 && |runs| > 0
    requires (forall i :: 0 <= i < |runs| ==> IsRun(runs[i])) && Interleave(parts, runs) == s
    requires (forall i :: 0 <= i < |parts| ==> NoSeparator(parts[i]))
    requires (forall i :: 0 < i < |parts| - 1 ==> parts[i] != "")
    ensures var k := FirstSeparator(s);
            && k == |parts[0]| && k < |s|
            && RunEnd(s, k) == |parts[0]| + |runs[0]|
            && s[..k] == parts[0]
            && s[RunEnd(s, k)..] == Interleave(parts[1..], runs[1..])
  {
    var p0, r0 := parts[0], runs[0];
    var rest := Interleave(parts[1..], runs[1..]);
    assert s == p0 + r0 + rest;
    var k, j := |p0|, |p0| + |r0|;
    assert s[..k] == p0 && s[k] == r0[0];
    FirstSeparatorAt(s, k);
    assert s[j..] == rest;
    assert s[k..j] == r0;
    forall i | k <= i < j ensures IsSeparator(s[i]) {
      assert s[i] == s[k..j][i - k];
    }
    StartsClean(parts[1..], runs[1..]);
    RunEndAt(s, k, j);
  }

  /** Pieces and runs put together start with a piece's character, or are empty. */
  lemma StartsClean(parts: seq<string>, runs: seq<string>)
    requires |parts| == |runs| + 1 && (forall i :: 0 <= i < |parts| ==> NoSeparator(parts[i]))
    requires |runs| > 0 ==> parts[0] != ""
    ensures var t := Interleave(parts, runs); t != "" ==> !IsSeparator(t[0])
  {
    if |runs| > 0 {
      assert Interleave(parts, runs)[0] == parts[0][0];
    }
  }

  lemma {:induction false} FirstSeparatorAt(s: string, k: nat)
    requires k < |s| && NoSeparator(s[..k]) && IsSeparator(s[k])
    ensures FirstSeparator(s) == k
  {
    if k > 0 {
      assert !IsSeparator(s[..k][0]);
      assert s[1..][..k - 1] == s[1..k];
      FirstSeparatorAt(s[1..], k - 1);
    }
  }

  lemma {:induction false} RunEndAt(s: string, k: nat, j: nat)
    requires k <= j <= |s| && (forall i :: k <= i < j ==> IsSeparator(s[i]))
    requires j < |s| ==> !IsSeparator(s[j])
    ensures RunEnd(s, k) == j
    decreases j - k
  {
    if k < j {
      RunEndAt(s, k + 1, j);
    }
  }

  /** One step of the split: the piece before the first run, the run, and the rest. */
  lemma SplitStep(s: string, k: nat, j: nat, rest: seq<string>, runs': seq<string>)
    requires k < j <= |s| && IsRun(s[k..j])
    requires |rest| == |runs'| + 1 && (forall i :: 0 <= i < |runs'| ==> IsRun(runs'[i]))
    requires Interleave(rest, runs') == s[j..]
    ensures SplitsInto(s, [s[..k]] + rest)
  {
    var parts := [s[..k]] + rest;
    var runs := [s[k..j]] + runs';
    assert Interleave(parts, runs) == s by {
      assert parts[1..] == rest && runs[1..] == runs';
      assert Interleave(parts, runs) == s[..k] + s[k..j] + s[j..];
      ThreeSlices(s, k, j);
    }
    assert forall i :: 0 <= i < |runs| ==> IsRun(runs[i]) by {
      forall i | 0 <= i < |runs| ensures IsRun(runs[i]) {
        if i > 0 {
          assert runs[i] == runs'[i - 1];
        }
      }
    }
    assert SplitsWith(s, parts, runs);
  }

  lemma ThreeSlices(s: string, k: nat, j: nat)
    requires k <= j <= |s|
    ensures s[..k] + s[k..j] + s[j..] == s
  {
    assert s[..k] + s[k..j] == s[..j];
    assert s[..j] + s[j..] == s;
  }

  /** A piece without separators has no white space to trim. */
  lemma PiecesAreTrimmed(parts: seq<string>)
    requires forall i :: 0 <= i < |parts| ==> NoSeparator(parts[i])
    ensures TrimAll(parts) == parts
  {
    forall i | 0 <= i < |parts| ensures IsTrimmed(parts[i]) {
      var p := parts[i];
      if |p| > 0 {
        assert !IsSeparator(p[0]) && !IsSeparator(p[|p| - 1]);
      }
    }
    TrimAllOfTrimmed(parts);
  }

  /** `(attr || '').toLowerCase().split(/[\s,|]+/).map(s => s.trim()).filter(Boolean)`:
      the category names of a card, in the order written. */
  function CategoryList(attr: Option<string>): (names: seq<string>)
    ensures forall i :: 0 <= i < |names| ==> IsCategoryName(names[i])
    ensures exists parts :: PiecesOf(ToLower(Or(attr, "")), parts) && names == NonEmpty(parts)
  {
    var s := ToLower(Or(attr, ""));
    assert IsLower(s);
    var parts := SplitOnRuns(s);
    PiecesAreTrimmed(parts);
    NamesOfPieces(parts);
    assert PiecesOf(s, parts);
    NonEmpty(TrimAll(parts))
  }

  /** The category list is the non-empty pieces of the lower-cased text. */
  lemma CategoryPieces(attr: Option<string>)
    ensures var parts := SplitOnRuns(ToLower(Or(attr, "")));
            PiecesOf(ToLower(Or(attr, "")), parts) && CategoryList(attr) == NonEmpty(parts)
  {
    PiecesAreTrimmed(SplitOnRuns(ToLower(Or(attr, ""))));
  }

  /** The non-empty pieces of a lower-cased text are category names. */
  lemma {:induction false} NamesOfPieces(parts: seq<string>)
    requires forall i :: 0 <= i < |parts| ==> NoSeparator(parts[i]) && IsLower(parts[i])
    ensures forall i :: 0 <= i < |NonEmpty(parts)| ==> IsCategoryName(NonEmpty(parts)[i])
  {
    if |parts| > 0 {
      NamesOfPieces(parts[1..]);
    }
  }

  /** `parseCategories(card)`: the set of the card's category names. */
  function Categories(attr: Option<string>): (cats: set<string>)
    ensures forall t :: t in cats ==> IsCategoryName(t)
    ensures exists parts :: && PiecesOf(ToLower(Or(attr, "")), parts)
                            && forall t :: t in cats <==> t != "" && t in parts
  {
    var lower := ToLower(Or(attr, ""));
    var parts := SplitOnRuns(lower);
    CategoryPieces(attr);
    var cats := set t | t in CategoryList(attr);
    assert forall t :: t in cats <==> t != "" && t in parts;
    assert PiecesOf(lower, parts);
    cats
  }

  /** The categories of a card are exactly the non-empty pieces of its lower-cased
      `data-category` split on separator runs. */
  lemma CategoriesAreThePieces(attr: Option<string>, t: string)
    ensures t in Categories(attr) <==> t != "" && t in SplitOnRuns(ToLower(Or(attr, "")))
  {
    var parts := SplitOnRuns(ToLower(Or(attr, "")));
    PiecesAreTrimmed(parts);
  }

  /** `matchesFilter(card, filter)`: an empty filter and 'all' let every card through;
      any other filter, lower-cased, must be one of the card's categories. */
  predicate MatchesFilter(attr: Option<string>, filter: string) {
    filter == "" || filter == "all" || ToLower(filter) in Categories(attr)
  }

  // ---------------------------------------------------------------------------
  // Writing category lists
  // ---------------------------------------------------------------------------

  lemma LowerUnchanged(s: string)
    requires IsLower(s)
    ensures ToLower(s) == s
  {
  }

  lemma {:induction false} JoinIsLower(names: seq<string>, sep: char)
    requires !IsUpperAscii(sep)
    requires forall i :: 0 <= i < |names| ==> IsLower(names[i])
    ensures IsLower(Join(names, sep))
    decreases |names|
  {
    if |names| > 1 {
      JoinIsLower(names[1..], sep);
      var rest := Join(names[1..], sep);
      assert Join(names, sep) == names[0] + [sep] + rest;
    }
  }

  /** The first character of a joined list is that of its first name. */
  lemma JoinStarts(names: seq<string>, sep: char)
    requires |names| >= 1 && names[0] != ""
    ensures Join(names, sep) != "" && Join(names, sep)[0] == names[0][0]
  {
    if |names| > 1 {
      assert Join(names, sep) == names[0] + [sep] + Join(names[1..], sep);
    }
  }

  lemma {:induction false} FirstSeparatorAfter(p: string, sep: char, rest: string)
    requires NoSeparator(p) && IsSeparator(sep)
    ensures FirstSeparator(p + [sep] + rest) == |p|
    decreases |p|
  {
    if |p| > 0 {
      assert (p + [sep] + rest)[1..] == p[1..] + [sep] + rest;
      FirstSeparatorAfter(p[1..], sep, rest);
    }
  }

  lemma FirstSeparatorNone(s: string)
    requires NoSeparator(s)
    ensures FirstSeparator(s) == |s|
  {
  }

  /** Splitting undoes joining category names with one separator between neighbours. */
  lemma {:induction false} SplitOnRunsJoin(names: seq<string>, sep: char)
    requires |names| >= 1 && IsSeparator(sep)
    requires forall i :: 0 <= i < |names| ==> names[i] != "" && NoSeparator(names[i])
    ensures SplitOnRuns(Join(names, sep)) == names
    decreases |names|
  {
    var s := Join(names, sep);
    var p := names[0];
    if |names| == 1 {
      FirstSeparatorNone(p);
    } else {
      var rest := Join(names[1..], sep);
      assert s == p + [sep] + rest;
      FirstSeparatorAfter(p, sep, rest);
      JoinStarts(names[1..], sep);
      assert s[|p|] == sep && s[|p| + 1] == rest[0];
      assert RunEnd(s, |p| + 1) == |p| + 1;
      assert RunEnd(s, |p|) == |p| + 1;
      assert s[..|p|] == p && s[|p| + 1..] == rest;
      SplitOnRunsJoin(names[1..], sep);
    }
  }

  /** Writing category names into `data-category`, one separator between neighbours,
      gives exactly those names back. */
  lemma CategoriesOfJoin(names: seq<string>, sep: char)
    requires IsSeparator(sep)
    requires forall i :: 0 <= i < |names| ==> IsCategoryName(names[i])
    ensures Categories(Some(Join(names, sep))) == set t | t in names
  {
    var s := Join(names, sep);
    if |names| == 0 {
      NoCategories();
    } else {
      assert CategoryList(Some(s)) == names by {
        JoinStarts(names, sep);
        assert Or(Some(s), "") == s;
        JoinIsLower(names, sep);
        LowerUnchanged(s);
        SplitOnRunsJoin(names, sep);
        PiecesAreTrimmed(names);
      }
    }
    SetOfList(Some(s), CategoryList(Some(s)));
  }

  /** An empty `data-category` has no categories. */
  lemma NoCategories()
    ensures CategoryList(Some("")) == []
  {
    CategoryPieces(Some(""));
    assert ToLower(Or(Some(""), "")) == "";
    assert SplitOnRuns("") == [""];
    assert NonEmpty([""]) == [];
  }

  /** The category set holds the names of the category list. */
  lemma SetOfList(attr: Option<string>, names: seq<string>)
    requires CategoryList(attr) == names
    ensures Categories(attr) == set t | t in names
  {
  }

  /** A card written with these category names matches a filter exactly when the
      filter is empty, is 'all', or names one of them in any letter case. */
  lemma MatchesJoined(names: seq<string>, sep: char, filter: string)
    requires IsSeparator(sep)
    requires forall i :: 0 <= i < |names| ==> IsCategoryName(names[i])
    ensures MatchesFilter(Some(Join(names, sep)), filter)
            <==> filter == "" || filter == "all" || ToLower(filter) in names
  {
    CategoriesOfJoin(names, sep);
  }

  /** Filters that differ only in letter case select the same cards, except that
      exactly 'all' is special. */
  lemma FilterIgnoresCase(attr: Option<string>, f: string, g: string)
    requires ToLower(f) == ToLower(g)
    requires f != "all" && g != "all"
    ensures MatchesFilter(attr, f) == MatchesFilter(attr, g)
  {
  }

  /** A filter that is not 'all' and holds a separator matches no card. */
  lemma SeparatorInFilterMatchesNothing(attr: Option<string>, f: string, i: nat)
    requires f != "all" && i < |f| && IsSeparator(f[i])
    ensures !MatchesFilter(attr, f)
  {
    assert ToLower(f)[i] == f[i];
  }

  // ---------------------------------------------------------------------------
  // A transition
  // ---------------------------------------------------------------------------

  /** A project card: its `data-category` attribute and whether it is displayed. */
  datatype Card = Card(category: Option<string>, shown: bool)

  /** Whether each card matches the filter. */
  function Wants(cards: seq<Card>, filter: string): (w: seq<bool>)
    ensures |w| == |cards|
    ensures forall i :: 0 <= i < |cards| ==> w[i] == MatchesFilter(cards[i].category, filter)
  {
    seq(|cards|, i requires 0 <= i < |cards| => MatchesFilter(cards[i].category, filter))
  }

  /** The sorting of step 2 of a transition: `toShow` holds exactly the hidden cards
      that match, `toHide` exactly the displayed cards that do not. */
  ghost predicate Classified(cards: seq<Card>, filter: string, toShow: set<nat>, toHide: set<nat>) {
    SortedUpTo(cards, Wants(cards, filter), |cards|, toShow, toHide)
  }

  /** The same for the first `n` cards, given whether each card is wanted. */
  ghost predicate SortedUpTo(cards: seq<Card>, wants: seq<bool>, n: nat, toShow: set<nat>, toHide: set<nat>)
    requires n <= |cards| == |wants|
  {
    && (forall i: nat :: i in toShow <==> i < n && wants[i] && !cards[i].shown)
    && (forall i: nat :: i in toHide <==> i < n && !wants[i] && cards[i].shown)
  }

  /** Step 2 of the click handler: one pass over the cards. */
  method Classify(cards: seq<Card>, filter: string) returns (toShow: set<nat>, toHide: set<nat>)
    ensures Classified(cards, filter, toShow, toHide)
    ensures toShow !! toHide
  {
    var wants := Wants(cards, filter);
    toShow, toHide := {}, {};
    var i: nat := 0;
    while i < |cards|
      invariant i <= |cards|
      invariant SortedUpTo(cards, wants, i, toShow, toHide)
    {
      SortStep(cards, wants, i, toShow, toHide);
      if wants[i] && !cards[i].shown {
        toShow := toShow + {i};
      } else if !wants[i] && cards[i].shown {
        toHide := toHide + {i};
      }
      i := i + 1;
    }
    SortedDisjoint(cards, wants, toShow, toHide);
  }

  /** One card more: it joins `toShow` or `toHide` or neither, as its match and its
      display state say. */
  lemma SortStep(cards: seq<Card>, wants: seq<bool>, n: nat, toShow: set<nat>, toHide: set<nat>)
    requires n < |cards| == |wants| && SortedUpTo(cards, wants, n, toShow, toHide)
    ensures SortedUpTo(cards, wants, n + 1,
                       if wants[n] && !cards[n].shown then toShow + {n} else toShow,
                       if !wants[n] && cards[n].shown then toHide + {n} else toHide)
  {
  }

  lemma SortedDisjoint(cards: seq<Card>, wants: seq<bool>, toShow: set<nat>, toHide: set<nat>)
    requires |cards| == |wants| && SortedUpTo(cards, wants, |cards|, toShow, toHide)
    ensures toShow !! toHide
  {
  }

  /** The display state the transition leaves: step 3 hides every non-matching card
      outside `toHide`, step 5 shows the entering cards, and step 6 hides the exiting
      ones, in that order. */
  function Transition(cards: seq<Card>, filter: string, toShow: set<nat>, toHide: set<nat>): (r: seq<Card>)
    ensures |r| == |cards|
    ensures forall i :: 0 <= i < |r| ==> r[i].category == cards[i].category
    ensures forall i :: 0 <= i < |r| && i in toHide ==> !r[i].shown
    ensures forall i :: 0 <= i < |r| && i in toShow && i !in toHide ==> r[i].shown
    ensures forall i :: 0 <= i < |r| && r[i].shown ==> i in toShow || cards[i].shown
    ensures forall i :: 0 <= i < |r| && r[i].shown && i !in toShow ==> MatchesFilter(cards[i].category, filter)
  {
    seq(|cards|, i requires 0 <= i < |cards| =>
      var c := cards[i];
      if i in toHide then c.(shown := false)
      else if i in toShow then c.(shown := true)
      else if !MatchesFilter(c.category, filter) then c.(shown := false)
      else c)
  }

  /** After a transition exactly the matching cards are displayed, whatever was
      displayed before. */
  lemma TransitionShowsMatches(cards: seq<Card>, filter: string, toShow: set<nat>, toHide: set<nat>)
    requires Classified(cards, filter, toShow, toHide)
    ensures forall i :: 0 <= i < |cards| ==>
              (Transition(cards, filter, toShow, toHide)[i].shown <==> MatchesFilter(cards[i].category, filter))
  {
  }

  // ---------------------------------------------------------------------------
  // Clicks and stale runs
  // ---------------------------------------------------------------------------

  /** The state behind the filter buttons: the run counter, the latest filter clicked,
      the `data-filter` of the active button (None when there is none or it has no such
      attribute), and whether a transition is in progress. */
  datatype Controller = Controller(activeRunId: nat, latestFilter: string, activeButton: Option<string>, busy: bool)

  /** What a click did: the new state, the run id it took, and whether it started a
      transition. */
  datatype ClickResult = ClickResult(next: Controller, runId: nat, starts: bool)

  /** A click on a filter button whose `data-filter` is `attr`. The filter defaults to
      'all'; the click always records it and takes a fresh run id, and it starts a
      transition unless its filter is the active button's and nothing is running. */
  function Click(c: Controller, attr: Option<string>): (r: ClickResult)
    ensures r.runId == c.activeRunId + 1 == r.next.activeRunId
    ensures r.next.latestFilter != ""
    ensures attr.Some? && attr.value != "" ==> r.next.latestFilter == attr.value
    ensures !r.starts <==> !c.busy && c.activeButton == Some(r.next.latestFilter)
    ensures r.starts ==> r.next.busy && r.next.activeButton == attr
    ensures !r.starts ==> r.next.busy == c.busy && r.next.activeButton == c.activeButton
  {
    var filter := Or(attr, "all");
    var c1 := c.(latestFilter := filter, activeRunId := c.activeRunId + 1);
    if c.activeButton == Some(filter) && !c.busy then ClickResult(c1, c1.activeRunId, false)
    else ClickResult(c1.(activeButton := attr, busy := true), c1.activeRunId, true)
  }

  /** `finalizeStateAndRefreshCache(grid, latestFilter, runId)`: a run that is not the
      latest leaves every card as it is; otherwise each card is displayed exactly when
      it matches the latest filter. */
  function Finalize(c: Controller, cards: seq<Card>, runId: Option<int>): (r: seq<Card>)
    ensures |r| == |cards|
    ensures forall i :: 0 <= i < |r| ==> r[i].category == cards[i].category
    ensures runId.Some? && runId.value != c.activeRunId ==> r == cards
    ensures runId.None? || runId.value == c.activeRunId ==>
              forall i :: 0 <= i < |r| ==> (r[i].shown <==> MatchesFilter(cards[i].category, c.latestFilter))
  {
    if runId.Some? && runId.value != c.activeRunId then cards
    else seq(|cards|, i requires 0 <= i < |cards| => cards[i].(shown := MatchesFilter(cards[i].category, c.latestFilter)))
  }

  /** A sequence of clicks, one after the other. */
  function ClickAll(c: Controller, attrs: seq<Option<string>>): (r: Controller)
    ensures r.activeRunId == c.activeRunId + |attrs|
    ensures |attrs| > 0 ==> r.latestFilter == Click(ClickAll(c, attrs[..|attrs| - 1]), attrs[|attrs| - 1]).next.latestFilter
  {
    if |attrs| == 0 then c
    else Click(ClickAll(c, attrs[..|attrs| - 1]), attrs[|attrs| - 1]).next
  }

  /** A run overtaken by any later click finishes without touching the cards. */
  lemma OvertakenRunIgnored(c: Controller, attr: Option<string>, later: seq<Option<string>>, cards: seq<Card>)
    requires |later| >= 1
    ensures var first := Click(c, attr);
            Finalize(ClickAll(first.next, later), cards, Some(first.runId)) == cards
  {
  }

  /** The latest run displays exactly the cards that match the filter of the latest
      click; a click without `data-filter` displays every card. */
  lemma LatestRunApplies(c: Controller, attr: Option<string>, cards: seq<Card>)
    ensures var r := Click(c, attr);
            var after := Finalize(r.next, cards, Some(r.runId));
            && (forall i :: 0 <= i < |cards| ==> (after[i].shown <==> MatchesFilter(cards[i].category, Or(attr, "all"))))
            && (attr.None? ==> forall i :: 0 <= i < |cards| ==> after[i].shown)
  {
  }

  /** Finalizing the latest run agrees with what the transition displayed. */
  lemma FinalizeAgreesWithTransition(c: Controller, cards: seq<Card>, toShow: set<nat>, toHide: set<nat>)
    requires Classified(cards, c.latestFilter, toShow, toHide)
    ensures Finalize(c, cards, Some(c.activeRunId)) == Transition(cards, c.latestFilter, toShow, toHide)
  {
    TransitionShowsMatches(cards, c.latestFilter, toShow, toHide);
  }

  // ---------------------------------------------------------------------------
  // FLIP
  // ---------------------------------------------------------------------------

  /** A card's bounding box. */
  datatype Rect = Rect(left: real, top: real, width: real, height: real)

  /** The offset and scale that make a card at `to` look as if it were still at `from`. */
  datatype FlipStep = FlipStep(dx: real, dy: real, scaleX: real, scaleY: real)

  /** `clamp(a / b || 1, 0.5, 2)`: a ratio of sizes, with 0 and NaN replaced by 1 and the
      result held within [0.5, 2]. A division by zero saturates. */
  function ScaleFactor(a: real, b: real): (s: real)
    ensures 0.5 <= s <= 2.0
    ensures a == 0.0 ==> s == 1.0
    ensures b != 0.0 && a != 0.0 && 0.5 <= a / b <= 2.0 ==> s * b == a
    ensures b != 0.0 && a / b > 2.0 ==> s == 2.0
    ensures b != 0.0 && a != 0.0 && a / b < 0.5 ==> s == 0.5
    ensures b == 0.0 && a > 0.0 ==> s == 2.0
    ensures b == 0.0 && a < 0.0 ==> s == 0.5
  {
    var q := Div(a, b);
    var r := Clamp(OrElse(q, 1.0), 0.5, 2.0);
    assert b != 0.0 ==> q == Finite(a / b);
    r.value
  }

  function Flip(from: Rect, to: Rect): (f: FlipStep)
    ensures to.left + f.dx == from.left && to.top + f.dy == from.top
    ensures 0.5 <= f.scaleX <= 2.0 && 0.5 <= f.scaleY <= 2.0
  {
    FlipStep(from.left - to.left, from.top - to.top, ScaleFactor(from.width, to.width), ScaleFactor(from.height, to.height))
  }

  /** The early return of `flipAnimate`: practically no move and no scale change. */
  predicate Skips(f: FlipStep) {
    && -0.5 < f.dx < 0.5 && -0.5 < f.dy < 0.5
    && -0.001 < f.scaleX - 1.0 < 0.001 && -0.001 < f.scaleY - 1.0 < 0.001
  }

  /** A card that neither moved nor changed size is not animated, zero-sized or not. */
  lemma UnmovedCardSkips(r: Rect)
    ensures Skips(Flip(r, r))
  {
    assert r.width != 0.0 ==> r.width / r.width == 1.0;
    assert r.height != 0.0 ==> r.height / r.height == 1.0;
  }

  /** When neither side changed by more than a factor of two, the first frame of the
      animation covers exactly the old box: the new box shifted by the offset and
      scaled by the factor. */
  lemma FlipRestoresOldBox(from: Rect, to: Rect)
    requires from.width > 0.0 && to.width > 0.0 && from.height > 0.0 && to.height > 0.0
    requires 0.5 * to.width <= from.width <= 2.0 * to.width
    requires 0.5 * to.height <= from.height <= 2.0 * to.height
    ensures var f := Flip(from, to);
            to.width * f.scaleX == from.width && to.height * f.scaleY == from.height
  {
    RatioInRange(from.width, to.width);
    RatioInRange(from.height, to.height);
  }

  lemma RatioInRange(a: real, b: real)
    requires a > 0.0 && b > 0.0 && 0.5 * b <= a <= 2.0 * b
    ensures 0.5 <= a / b <= 2.0
  {
  }
}
