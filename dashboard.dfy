/**
 * The page as a whole (Healthdashboard.py:62-321): load the selected
 * columns, offer the filter menus, filter, show the metric cards, and draw
 * the charts only when some study matches the filters.
 */
module Dashboard {
  import opened Results
  import opened Records
  import opened Counting
  import opened Filters
  import opened Aggregates
  import opened Proportions

  /** The choices offered by the five sidebar multiselects. */
  datatype Menus = Menus(years: seq<string>, countries: seq<string>, healthEvents: seq<string>,
                         platforms: seq<string>, methods: seq<string>)

  function MenusOf(t: Table): Menus
  {
    Menus(Options(t, Year), Options(t, Country), Options(t, HealthEvent), Options(t, Platform), Options(t, Method1))
  }

  /** The tables behind the charts; `sunburst` is `None` where the page shows its warning instead. */
  datatype Charts = Charts(
    platforms: seq<Entry<string>>,
    countries: seq<Entry<string>>,
    treemap: seq<Entry<(string, string)>>,
    sources: seq<Entry<string>>,
    trend: seq<Entry<(string, string)>>,
    shares: seq<ShareRow>,
    ranking: seq<(string, real)>,
    eventOrder: seq<string>,
    sunburst: Option<seq<Entry<(string, string)>>>)

  datatype Page = Page(menus: Menus, summary: Summary, charts: Option<Charts>)

  /** `c` holds the chart tables of the filtered table `f`. */
  predicate ChartsOf(c: Charts, f: Table)
  {
    && c.platforms == ValueCounts(f, Platform)
    && c.countries == ValueCounts(f, Country)
    && c.treemap == Treemap(f)
    && c.sources == SourceShares(f)
    && c.trend == Trend(f)
    && SharesOf(c.shares, GroupCounts(f, HealthEvent, Objective))
    && RankedByInfodemiology(c.shares, c.ranking, c.eventOrder)
    && (c.sunburst.None? <==> Sunburst(f) == [])
    && (c.sunburst.Some? ==> c.sunburst.value == Sunburst(f))
  }

  /** `p` is the page for the selected-column table `t` under the selection `sel`. */
  predicate Shows(p: Page, t: Table, sel: Selection)
  {
    var f := Restrict(t, Active(sel));
    && p.menus == MenusOf(t)
    && p.summary == Summarize(f)
    && (p.charts.None? <==> f == [])
    && (p.charts.Some? ==> ChartsOf(p.charts.value, f))
  }

  /**
   * The page, with the metric cards computed as the corrected `Summarize`
   * (no most-used platform when no study names one). It fails exactly when
   * the spreadsheet lacks one of the selected columns.
   */
  method Render(sheet: Sheet, sel: Selection) returns (r: Result<Page, LoadError>)
    requires WellFormed(sheet)
    ensures r.Failure? <==> !HasAllColumns(sheet.header)
    ensures r.Failure? ==> r == Failure(SelectColumns(sheet).error)
    ensures r.Success? ==> SelectColumns(sheet).Success? && Shows(r.value, SelectColumns(sheet).value, sel)
  {
    var loaded := SelectColumns(sheet);
    if loaded.Failure? {
      return Failure(loaded.error);
    }
    var t := loaded.value;
    var menus := MenusOf(t);
    var f := ApplyFilters(t, sel);
    var summary := Summarize(f);
    var charts: Option<Charts> := None;
    if f != [] {
      var shares, ranking, order := ObjectiveShares(f);
      var sunburst := Sunburst(f);
      charts := Some(Charts(
        ValueCounts(f, Platform), ValueCounts(f, Country), Treemap(f), SourceShares(f), Trend(f),
        shares, ranking, order,
        if sunburst == [] then None else Some(sunburst)));
    }
    return Success(Page(menus, summary, charts));
  }

  /** The sunburst warning shows exactly when no study names both an evaluation and an objective. */
  lemma SunburstEmptyExactly(t: Table)
    ensures Sunburst(t) == [] <==> forall i | 0 <= i < |t| :: t[i].evaluation.None? || t[i].objective.None?
  {
    var r := Sunburst(t);
    if r != [] {
      assert HasKey(r, r[0].key);
    }
    if i :| 0 <= i < |t| && t[i].evaluation.Some? && t[i].objective.Some? {
      assert HasKey(r, (t[i].evaluation.value, t[i].objective.value)) by {
        assert Get(t[i], Evaluation) == Some(t[i].evaluation.value);
        assert Get(t[i], Objective) == Some(t[i].objective.value);
      }
    }
  }
}
