/**
 * The search panel: a two-state machine (search and sub-search) with a cached
 * result total, what the page shows of it (the list-all button, the order of the
 * filter-panel and selection-info containers, the totals label, the search icon),
 * and the two events the search form fires on submit. The DOM is reduced to those
 * few values; `Formatting.formatNumber` is the function `formatNumber` the panel is
 * built with.
 */
module SearchPanel {
  import opened JsStrings
  import opened JsValues
  import opened Properties
  import UrlBar

  /** The magnifier glyph of the icon font. */
  const SearchGlyph := "&#xf002;"
  /** The cross glyph of the icon font. */
  const ClearGlyph := "&#xf00d;"
  /** The totals label before anything was rendered into it. */
  const BlankTotals := "&nbsp;"
  /** The key code of the Enter key. */
  const EnterKey := 13

  /** The panel's state and what the page shows of it. `filterFirst` holds while the
      filter panel sits above the selection info; `reorderQueued` while a slide-up
      callback that moves the selection info above it has not run yet. */
  datatype PanelView = PanelView(
    subsearch: bool,
    totals: int,
    listAllVisible: bool,
    filterFirst: bool,
    reorderQueued: bool,
    totalsHtml: string,
    iconHtml: string,
    iconClear: bool)

  /** The events the panel fires on the event broker. */
  datatype PanelEvent = QueryPhraseChanged(phrase: JsValue) | SearchChanged(diff: map<string, JsValue>)

  /** The label of the list-all button: the formatted total in parentheses. */
  function TotalsLabel(totals: int, formatNumber: int -> string): string {
    "(" + formatNumber(totals) + ")"
  }

  /** What every state of the panel satisfies: the list-all button is shown exactly in
      sub-search, where the label shows the cached total, and the icon is one of the
      two glyphs, with class `clear` exactly on the cross. */
  predicate Consistent(v: PanelView, formatNumber: int -> string) {
    && (v.listAllVisible <==> v.subsearch)
    && (v.subsearch ==> v.totalsHtml == TotalsLabel(v.totals, formatNumber))
    && (v.iconHtml == SearchGlyph || v.iconHtml == ClearGlyph)
    && (v.iconClear <==> v.iconHtml == ClearGlyph)
  }

  /** Search state, total 0, list-all hidden, containers in page order, magnifier icon. */
  function InitialView(): (r: PanelView)
    ensures forall fmt: int -> string :: Consistent(r, fmt)
  {
    PanelView(false, 0, false, true, false, BlankTotals, SearchGlyph, false)
  }

  /** `onAPIResponse`: keep the total; render it only in sub-search. */
  function OnApiResponse(v: PanelView, total: int, formatNumber: int -> string): (r: PanelView)
    ensures Consistent(v, formatNumber) ==> Consistent(r, formatNumber)
  {
    var stored := v.(totals := total);
    if v.subsearch then stored.(totalsHtml := TotalsLabel(total, formatNumber)) else stored
  }

  /** `toStateSearch`: leave sub-search, hide list-all, put the filter panel above the
      selection info. */
  function ToSearch(v: PanelView): (r: PanelView)
    ensures !r.subsearch && !r.listAllVisible && r.filterFirst
  {
    v.(subsearch := false, listAllVisible := false, filterFirst := true)
  }

  /** `toStateSubsearch`: enter sub-search, render the cached total, show list-all, and
      start the slide-up whose callback puts the selection info on top. */
  function ToSubsearch(v: PanelView, formatNumber: int -> string): (r: PanelView)
    ensures r.subsearch && r.listAllVisible && r.reorderQueued
  {
    v.(subsearch := true, totalsHtml := TotalsLabel(v.totals, formatNumber), listAllVisible := true, reorderQueued := true)
  }

  /** The slide-up callback: the selection info goes above the filter panel. */
  function SlideUpDone(v: PanelView): (r: PanelView)
    requires v.reorderQueued
    ensures !r.filterFirst && !r.reorderQueued
  {
    v.(filterFirst := false, reorderQueued := false)
  }

  /** `updateIcon`: the magnifier for a blank input, the cross with class `clear` otherwise. */
  function WithIcon(v: PanelView, input: string): (r: PanelView)
    ensures r.iconHtml == if r.iconClear then ClearGlyph else SearchGlyph
    ensures r.(iconHtml := v.iconHtml, iconClear := v.iconClear) == v
  {
    var chars := Trim(input);
    if |chars| == 0 then v.(iconHtml := SearchGlyph, iconClear := false)
    else v.(iconHtml := ClearGlyph, iconClear := true)
  }

  /** The icon is the cross, with class `clear`, exactly when the input holds a
      character that is not white space. */
  lemma IconClearIffNotBlank(v: PanelView, input: string)
    ensures WithIcon(v, input).iconClear <==> !AllWhiteSpace(input)
    ensures WithIcon(v, input).iconHtml == (if AllWhiteSpace(input) then SearchGlyph else ClearGlyph)
  {
    TrimEmptyIff(input);
  }

  /** The submit handler: `QUERY_PHRASE_CHANGED` then `SEARCH_CHANGED`, both carrying
      the trimmed input, or `false` when it is blank. */
  function SubmitEvents(input: string): (r: seq<PanelEvent>)
    ensures |r| == 2 && r[0].QueryPhraseChanged? && r[1].SearchChanged?
    ensures r[1].diff.Keys == {"query"} && r[1].diff["query"] == r[0].phrase
    ensures r[0].phrase == Bool(false) || (r[0].phrase.Str? && r[0].phrase.s != "")
  {
    var chars := Trim(input);
    if |chars| == 0 then [QueryPhraseChanged(Bool(false)), SearchChanged(map["query" := Bool(false)])]
    else [QueryPhraseChanged(Str(chars)), SearchChanged(map["query" := Str(chars)])]
  }

  /** A blank input submits `false`; any other input submits its trimmed text, which
      is not empty and neither starts nor ends with white space. */
  lemma SubmitBlankIff(input: string)
    ensures var phrase := SubmitEvents(input)[0].phrase;
      && (phrase == Bool(false) <==> AllWhiteSpace(input))
      && (phrase.Str? ==> phrase.s == Trim(input))
      && (phrase.Str? ==> !IsWhiteSpace(phrase.s[0]) && !IsWhiteSpace(phrase.s[|phrase.s| - 1]))
  {
    TrimEmptyIff(input);
    TrimIsInnerSlice(input);
  }

  /** Every transition keeps the panel consistent. */
  lemma TransitionsKeepConsistent(v: PanelView, formatNumber: int -> string, total: int, input: string)
    requires Consistent(v, formatNumber)
    ensures Consistent(OnApiResponse(v, total, formatNumber), formatNumber)
    ensures Consistent(ToSearch(v), formatNumber)
    ensures Consistent(ToSubsearch(v, formatNumber), formatNumber)
    ensures v.reorderQueued ==> Consistent(SlideUpDone(v), formatNumber)
    ensures Consistent(WithIcon(v, input), formatNumber)
  {
  }

  /** Entering sub-search twice is the same as entering it once. */
  lemma ToSubsearchIdempotent(v: PanelView, formatNumber: int -> string)
    ensures ToSubsearch(ToSubsearch(v, formatNumber), formatNumber) == ToSubsearch(v, formatNumber)
  {
  }

  /** Returning to search twice is the same as returning once. */
  lemma ToSearchIdempotent(v: PanelView)
    ensures ToSearch(ToSearch(v)) == ToSearch(v)
  {
  }

  /** A run of API responses. */
  function AfterResponses(v: PanelView, totals: seq<int>, formatNumber: int -> string): PanelView {
    if totals == [] then v else OnApiResponse(AfterResponses(v, totals[..|totals| - 1], formatNumber), totals[|totals| - 1], formatNumber)
  }

  /** Responses store their total in either state and never change the state, and in
      search state they leave the label alone. */
  lemma {:induction false} ResponsesKeepState(v: PanelView, totals: seq<int>, formatNumber: int -> string)
    ensures var r := AfterResponses(v, totals, formatNumber);
      && r.subsearch == v.subsearch
      && r.totals == (if totals == [] then v.totals else totals[|totals| - 1])
      && (!v.subsearch ==> r.totalsHtml == v.totalsHtml)
  {
    if totals != [] {
      ResponsesKeepState(v, totals[..|totals| - 1], formatNumber);
    }
  }

  /** On entering sub-search the label shows the last total received, whichever state
      the panel was in when it arrived. */
  lemma LabelShowsLastTotal(v: PanelView, totals: seq<int>, formatNumber: int -> string)
    requires totals != []
    ensures ToSubsearch(AfterResponses(v, totals, formatNumber), formatNumber).totalsHtml
         == TotalsLabel(totals[|totals| - 1], formatNumber)
  {
    ResponsesKeepState(v, totals, formatNumber);
  }

  /** In sub-search the label follows every response. */
  lemma LabelFollowsResponses(v: PanelView, totals: seq<int>, formatNumber: int -> string)
    requires Consistent(v, formatNumber) && v.subsearch
    ensures var r := AfterResponses(v, totals, formatNumber);
      r.totalsHtml == TotalsLabel(r.totals, formatNumber)
  {
    ResponsesConsistent(v, totals, formatNumber);
    ResponsesKeepState(v, totals, formatNumber);
  }

  lemma {:induction false} ResponsesConsistent(v: PanelView, totals: seq<int>, formatNumber: int -> string)
    requires Consistent(v, formatNumber)
    ensures Consistent(AfterResponses(v, totals, formatNumber), formatNumber)
  {
    if totals != [] {
      ResponsesConsistent(v, totals[..|totals| - 1], formatNumber);
    }
  }

  /** A slide-up callback still queued when the panel returns to search runs afterwards
      and leaves the selection info above the filter panel in search state. */
  lemma LateSlideUpReordersSearchState(v: PanelView, formatNumber: int -> string)
    ensures var r := SlideUpDone(ToSearch(ToSubsearch(v, formatNumber)));
      !r.subsearch && !r.filterFirst
  {
  }

  /** The submitted query reaches the URL bar: a blank input removes `query` from the
      fragment, any other input sets it to the trimmed text. */
  lemma SubmitUpdatesQuery(p: Props, input: string)
    ensures UrlBar.WithSearch(p, SubmitEvents(input)[1].diff)
         == if AllWhiteSpace(input) then Delete(p, "query") else Assign(p, "query", Str(Trim(input)))
  {
    SubmitBlankIff(input);
    var diff := SubmitEvents(input)[1].diff;
    var q := diff["query"];
    var p1 := UrlBar.WithParam(p, "query", diff);
    assert p1 == if Truthy(q) then Assign(p, "query", q) else Delete(p, "query");
    assert UrlBar.ParamEdit("from", diff).None? && UrlBar.ParamEdit("to", diff).None?;
  }

  class SearchPanel {
    /** `Formatting.formatNumber` */
    const formatNumber: int -> string
    /** `isStateSubsearch` */
    var isStateSubsearch: bool
    /** `currentTotals` */
    var currentTotals: int
    var listAllVisible: bool
    var filterFirst: bool
    var reorderQueued: bool
    var totalsHtml: string
    var iconHtml: string
    var iconClear: bool
    /** The events fired on the event broker, oldest first. */
    var fired: seq<PanelEvent>

    function View(): PanelView
      reads this`isStateSubsearch, this`currentTotals, this`listAllVisible, this`filterFirst, this`reorderQueued, this`totalsHtml, this`iconHtml, this`iconClear
    {
      PanelView(isStateSubsearch, currentTotals, listAllVisible, filterFirst, reorderQueued, totalsHtml, iconHtml, iconClear)
    }

    predicate Valid()
      reads this`isStateSubsearch, this`currentTotals, this`listAllVisible, this`filterFirst, this`reorderQueued, this`totalsHtml, this`iconHtml, this`iconClear
    {
      Consistent(View(), formatNumber)
    }

    constructor(formatNumber: int -> string)
      ensures Valid()
      ensures this.formatNumber == formatNumber
      ensures View() == InitialView() && fired == []
    {
      this.formatNumber := formatNumber;
      isStateSubsearch := false;
      currentTotals := 0;
      listAllVisible := false;
      filterFirst := true;
      reorderQueued := false;
      totalsHtml := BlankTotals;
      iconHtml := SearchGlyph;
      iconClear := false;
      fired := [];
    }

    /** `updateIcon`, given the current value of the search input. */
    method UpdateIcon(input: string)
      requires Valid()
      modifies this`iconHtml, this`iconClear
      ensures Valid()
      ensures View() == WithIcon(old(View()), input)
    {
      var chars := Trim(input);
      if |chars| == 0 {
        iconHtml := SearchGlyph;
        iconClear := false;
      } else {
        iconHtml := ClearGlyph;
        iconClear := true;
      }
    }

    /** `updateTotalsCount` */
    method UpdateTotalsCount()
      modifies this`totalsHtml
      ensures totalsHtml == TotalsLabel(currentTotals, formatNumber)
    {
      totalsHtml := "(" + formatNumber(currentTotals) + ")";
    }

    /** `onAPIResponse`, for `API_INITIAL_RESPONSE` and `API_VIEW_UPDATE`. */
    method OnAPIResponse(total: int)
      requires Valid()
      modifies this`currentTotals, this`totalsHtml
      ensures Valid()
      ensures View() == OnApiResponse(old(View()), total, formatNumber)
    {
      currentTotals := total;
      if isStateSubsearch {
        UpdateTotalsCount();
      }
    }

    /** `toStateSearch`, for `SELECTION`. */
    method ToStateSearch()
      requires Valid()
      modifies this`isStateSubsearch, this`listAllVisible, this`filterFirst
      ensures Valid()
      ensures View() == ToSearch(old(View()))
    {
      isStateSubsearch := false;
      listAllVisible := false;
      filterFirst := true;
    }

    /** `toStateSubsearch`, for `TO_STATE_SUB_SEARCH`. */
    method ToStateSubsearch()
      requires Valid()
      modifies this`isStateSubsearch, this`totalsHtml, this`listAllVisible, this`reorderQueued
      ensures Valid()
      ensures View() == ToSubsearch(old(View()), formatNumber)
    {
      isStateSubsearch := true;
      UpdateTotalsCount();
      listAllVisible := true;
      reorderQueued := true;
    }

    /** The slide-up callback queued by `toStateSubsearch`, run by the animation. */
    method SlideUpFinished()
      requires Valid() && reorderQueued
      modifies this`filterFirst, this`reorderQueued
      ensures Valid()
      ensures View() == SlideUpDone(old(View()))
    {
      filterFirst := false;
      reorderQueued := false;
    }

    /** The submit handler, given the current value of the search input. */
    method Submit(input: string)
      modifies this`fired
      ensures fired == old(fired) + SubmitEvents(input)
    {
      var chars := Trim(input);
      if |chars| == 0 {
        fired := fired + [QueryPhraseChanged(Bool(false))];
        fired := fired + [SearchChanged(map["query" := Bool(false)])];
      } else {
        fired := fired + [QueryPhraseChanged(Str(chars))];
        fired := fired + [SearchChanged(map["query" := Str(chars)])];
      }
    }

    /** The keypress handler: refresh the icon, and submit on Enter. */
    method Keypress(input: string, which: int)
      requires Valid()
      modifies this`iconHtml, this`iconClear, this`fired
      ensures Valid()
      ensures View() == WithIcon(old(View()), input)
      ensures which == EnterKey ==> fired == old(fired) + SubmitEvents(input)
      ensures which != EnterKey ==> fired == old(fired)
    {
      UpdateIcon(input);
      assert Valid();
      ghost var v := View();
      if which == EnterKey {
        Submit(input);
        assert View() == v;
        assert Valid();
      }
    }
  }
}
