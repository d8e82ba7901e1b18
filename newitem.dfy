/** The new-item creator (wikidata_new_from_wikipedia.py).

    The script walks the English Wikipedia pages that have no Wikidata item, puts each one
    through an ordered chain of checks, and for a page that passes them all (and that the
    operator confirms) creates an item with the page's title as label and sitelink, adding
    an "instance of" (P31) claim for categories and disambiguation pages. It stops after
    `MaxNum` creations. The wiki client is not modelled: a page is the record of the facts
    the checks read, the skip set is given, and the operator's answer is a field of the page. */
module NewItem {
  import opened Common

  const Prefix := "en"
  const MaxNum := 100
  const SecondsPerDay := 86400
  /** `days_since_last_edit`, used by the edit-age and by the creation-age check. */
  const EditDays := 1
  /** `days_since_last_edit_but_search`. */
  const SearchDays := 7

  // ---------------------------------------------------------------------------
  // Ages

  /** The seconds part of a Python `timedelta`, which the type keeps in [0, 86400). */
  type DaySeconds = s: int | 0 <= s < 86400

  /** A `timedelta` between now and a past time, without its microseconds: they never decide
      a comparison with a whole number of days. */
  datatype Timedelta = Timedelta(days: int, seconds: DaySeconds)

  /** How the script turns a `timedelta` into an age: as written, `.seconds` alone
      (lines 84 and 91); as intended, the whole duration. */
  datatype AgeRule = SecondsOnly | WholeAge

  /** The age in seconds that the checks compare against `days * 86400`. Comparing
      `age/86400 < d` for a whole number of days `d` is comparing `age < d * 86400`. */
  function AgeSeconds(rule: AgeRule, t: Timedelta): (r: int)
    ensures rule == SecondsOnly ==> 0 <= r < SecondsPerDay
    ensures rule == WholeAge ==> t.days * SecondsPerDay <= r < (t.days + 1) * SecondsPerDay
  {
    match rule
    case SecondsOnly => t.seconds
    case WholeAge => t.days * SecondsPerDay + t.seconds
  }

  // ---------------------------------------------------------------------------
  // The checks (lines 58-122)

  datatype Namespace = MainNs | CategoryNs | OtherNs

  /** What the checks read about a page, and the operator's answer to `Continue?`. */
  datatype PageInfo = PageInfo(
    title: string,
    ns: Namespace,
    isRedirect: bool,
    isCategoryRedirect: bool,
    templates: seq<string>,
    sinceEdit: Timedelta,
    sinceCreation: Timedelta,
    hasItem: bool,
    isEmptyCategory: bool,
    isHiddenCategory: bool,
    searchEmpty: bool,
    isDisambig: bool,
    confirm: bool)

  /** The outcome of the checks: the first one that fails, or `Eligible`. */
  datatype Verdict =
    | WrongNamespace
    | Redirect
    | CategoryRedirect
    | SkipTemplate(title: string)
    | RecentlyEdited
    | RecentlyCreated
    | HasItem
    | EmptyCategory
    | HiddenCategory
    | RecentWithSearchResults
    | Eligible

  /** The last of the page's templates that is in the skip set, if any (`trip`). */
  function LastSkip(ts: seq<string>, skip: set<string>): (r: Option<string>)
    ensures r.None? <==> forall k :: 0 <= k < |ts| ==> ts[k] !in skip
    ensures r.Some? ==> r.value in skip && r.value in ts
    decreases |ts|
  {
    if ts == [] then None
    else if ts[|ts| - 1] in skip then Some(ts[|ts| - 1])
    else
      var r := LastSkip(ts[..|ts| - 1], skip);
      assert forall k :: 0 <= k < |ts| - 1 ==> ts[..|ts| - 1][k] == ts[k];
      r
  }

  /** Lines 74-78: the scan that records the title of every skip template it meets. */
  method FindSkipTemplate(ts: seq<string>, skip: set<string>) returns (trip: Option<string>)
    ensures trip == LastSkip(ts, skip)
  {
    trip := None;
    var i := 0;
    while i < |ts|
      invariant 0 <= i <= |ts| && trip == LastSkip(ts[..i], skip)
    {
      var template := ts[i];
      assert ts[..i + 1][..i] == ts[..i];
      if template in skip {
        trip := Some(template);
      }
      i := i + 1;
    }
    assert ts[..i] == ts;
  }

  /** Lines 58-122: the checks in order; the first that fails decides. The creation age is
      compared with `days_since_last_edit` as the script does (line 92). */
  function Classify(p: PageInfo, skip: set<string>, rule: AgeRule): Verdict
  {
    if p.ns == OtherNs then WrongNamespace
    else if p.isRedirect then Redirect
    else if p.isCategoryRedirect then CategoryRedirect
    else if LastSkip(p.templates, skip).Some? then SkipTemplate(LastSkip(p.templates, skip).value)
    else if AgeSeconds(rule, p.sinceEdit) < EditDays * SecondsPerDay then RecentlyEdited
    else if AgeSeconds(rule, p.sinceCreation) < EditDays * SecondsPerDay then RecentlyCreated
    else if p.hasItem then HasItem
    else if p.ns == CategoryNs && p.isEmptyCategory then EmptyCategory
    else if p.ns == CategoryNs && p.isHiddenCategory then HiddenCategory
    else if !p.searchEmpty && AgeSeconds(rule, p.sinceEdit) < SearchDays * SecondsPerDay then RecentWithSearchResults
    else Eligible
  }

  /** Lines 58-122 as the script runs them, one `continue` per failing check. */
  method CheckPage(p: PageInfo, skip: set<string>, rule: AgeRule) returns (v: Verdict)
    ensures v == Classify(p, skip, rule)
  {
    if p.ns != MainNs && p.ns != CategoryNs {
      return WrongNamespace;
    }
    if p.isRedirect {
      return Redirect;
    }
    if p.isCategoryRedirect {
      return CategoryRedirect;
    }
    var trip := FindSkipTemplate(p.templates, skip);
    if trip.Some? {
      return SkipTemplate(trip.value);
    }
    var lasteditedTime := AgeSeconds(rule, p.sinceEdit);
    if lasteditedTime < EditDays * SecondsPerDay {
      return RecentlyEdited;
    }
    var createdTime := AgeSeconds(rule, p.sinceCreation);
    if createdTime < EditDays * SecondsPerDay {
      return RecentlyCreated;
    }
    if p.hasItem {
      return HasItem;
    }
    if p.ns == CategoryNs {
      if p.isEmptyCategory {
        return EmptyCategory;
      }
      if p.isHiddenCategory {
        return HiddenCategory;
      }
    }
    if !p.searchEmpty {
      if lasteditedTime < SearchDays * SecondsPerDay {
        return RecentWithSearchResults;
      }
    }
    return Eligible;
  }

  /** With the intended ages, a page is eligible exactly when every check passes. */
  lemma EligibleIff(p: PageInfo, skip: set<string>)
    ensures Classify(p, skip, WholeAge) == Eligible <==>
      && p.ns != OtherNs
      && !p.isRedirect && !p.isCategoryRedirect
      && (forall t :: t in p.templates ==> t !in skip)
      && p.sinceEdit.days >= EditDays
      && p.sinceCreation.days >= EditDays
      && !p.hasItem
      && (p.ns == CategoryNs ==> !p.isEmptyCategory && !p.isHiddenCategory)
      && (!p.searchEmpty ==> p.sinceEdit.days >= SearchDays)
  {
    var noSkip := forall t :: t in p.templates ==> t !in skip;
    assert noSkip <==> LastSkip(p.templates, skip).None? by {
      if !noSkip {
        var t :| t in p.templates && t in skip;
        var k :| 0 <= k < |p.templates| && p.templates[k] == t;
      }
    }
    var e := AgeSeconds(WholeAge, p.sinceEdit);
    assert e < EditDays * SecondsPerDay <==> p.sinceEdit.days < EditDays;
    assert e < SearchDays * SecondsPerDay <==> p.sinceEdit.days < SearchDays;
    var c := AgeSeconds(WholeAge, p.sinceCreation);
    assert c < EditDays * SecondsPerDay <==> p.sinceCreation.days < EditDays;
  }

  /** As written, the age is `.seconds`, always below one day, so every page that gets
      past the first four checks is rejected as recently edited (line 85), and no page is
      ever eligible. */
  lemma AsWrittenNeverEligible(p: PageInfo, skip: set<string>)
    ensures Classify(p, skip, SecondsOnly) != Eligible
    ensures p.ns != OtherNs && !p.isRedirect && !p.isCategoryRedirect && LastSkip(p.templates, skip).None?
            ==> Classify(p, skip, SecondsOnly) == RecentlyEdited
  {
  }

  // ---------------------------------------------------------------------------
  // The new item (lines 127-148)

  datatype Sitelink = Sitelink(site: string, title: string)

  /** The item data sent to `editEntity`: labels by language, and sitelinks. */
  datatype ItemData = ItemData(labels: map<string, string>, sitelinks: seq<Sitelink>)

  /** A created item: its data, the edit summary, and the P31 target added afterwards. */
  datatype Creation = Creation(data: ItemData, summary: string, p31: Option<string>)

  /** Line 127: one label in the wiki's language and one sitelink to the page, both the
      page title. */
  function NewItemData(title: string): (d: ItemData)
    ensures d.labels.Keys == {Prefix} && |d.sitelinks| == 1
    ensures d.labels[Prefix] == title && d.sitelinks[0].title == title
    ensures d.sitelinks[0].site == Prefix + "wiki"
  {
    ItemData(map[Prefix := title], [Sitelink(Prefix + "wiki", title)])
  }

  /** Lines 136-148: the P31 target, by page type. Only categories and disambiguation
      pages get one, and the three kinds get three different targets. */
  function P31Target(ns: Namespace, isDisambig: bool): (r: Option<string>)
    ensures r.Some? <==> ns == CategoryNs || isDisambig
  {
    if ns == CategoryNs then
      if isDisambig then Some("Q15407973") else Some("Q4167836")
    else if isDisambig then Some("Q4167410")
    else None
  }

  /** Different kinds of page that get a claim get different targets. */
  lemma P31Distinct(ns1: Namespace, d1: bool, ns2: Namespace, d2: bool)
    requires ns1 != OtherNs && ns2 != OtherNs
    requires P31Target(ns1, d1).Some? && P31Target(ns1, d1) == P31Target(ns2, d2)
    ensures ns1 == ns2 && d1 == d2
  {
  }

  function CreationFor(p: PageInfo): Creation
  {
    Creation(NewItemData(p.title), "Creating item from " + Prefix + "wiki", P31Target(p.ns, p.isDisambig))
  }

  // ---------------------------------------------------------------------------
  // The run (lines 52-163)

  /** What a run does: the items it creates, and the pages it touches (every eligible page,
      confirmed or not). */
  datatype Effects = Effects(created: seq<Creation>, touched: seq<string>)

  /** The rest of the run from the effects so far: an eligible page is touched and, when
      confirmed, becomes an item; the run stops as soon as `MaxNum` items exist. */
  function RunFrom(eff: Effects, pages: seq<PageInfo>, skip: set<string>, rule: AgeRule): Effects
    decreases |pages|
  {
    if pages == [] then eff
    else
      var p := pages[0];
      if Classify(p, skip, rule) != Eligible then RunFrom(eff, pages[1..], skip, rule)
      else
        var next := Effects(eff.created + (if p.confirm then [CreationFor(p)] else []), eff.touched + [p.title]);
        if |next.created| >= MaxNum then next else RunFrom(next, pages[1..], skip, rule)
  }

  /** Lines 52-163: the page loop with the counter `nummodified`. */
  method Run(pages: seq<PageInfo>, skip: set<string>, rule: AgeRule) returns (eff: Effects)
    ensures eff == RunFrom(Effects([], []), pages, skip, rule)
  {
    var nummodified := 0;
    var created: seq<Creation> := [];
    var touched: seq<string> := [];
    var i := 0;
    while i < |pages|
      invariant 0 <= i <= |pages| && nummodified == |created| < MaxNum
      invariant RunFrom(Effects(created, touched), pages[i..], skip, rule) == RunFrom(Effects([], []), pages, skip, rule)
    {
      var page := pages[i];
      SuffixCons(pages, i);
      var v := CheckPage(page, skip, rule);
      ghost var before := Effects(created, touched);
      if v == Eligible {
        var data := NewItemData(page.title);
        if page.confirm {
          created := created + [Creation(data, "Creating item from " + Prefix + "wiki", P31Target(page.ns, page.isDisambig))];
          nummodified := nummodified + 1;
        }
        touched := touched + [page.title];
        assert Effects(created, touched) == Effects(before.created + (if page.confirm then [CreationFor(page)] else []), before.touched + [page.title]);
        if nummodified >= MaxNum {
          return Effects(created, touched);
        }
      }
      i := i + 1;
    }
    eff := Effects(created, touched);
  }

  /** The items the pages call for, in order: one per eligible, confirmed page. */
  function Wanted(pages: seq<PageInfo>, skip: set<string>, rule: AgeRule): (r: seq<Creation>)
    ensures |r| <= |pages|
    decreases |pages|
  {
    if pages == [] then []
    else
      (if Classify(pages[0], skip, rule) == Eligible && pages[0].confirm then [CreationFor(pages[0])] else [])
      + Wanted(pages[1..], skip, rule)
  }

  /** The first `room` items of a list, or all of them when there are fewer. */
  function Take(w: seq<Creation>, room: nat): (r: seq<Creation>)
    ensures |r| <= room && |r| <= |w| && r == w[..|r|]
  {
    if |w| <= room then w else w[..room]
  }

  lemma TakeCons(c: Creation, w: seq<Creation>, room: nat)
    requires room >= 1
    ensures Take([c] + w, room) == [c] + Take(w, room - 1)
  {
    if |w| > room - 1 {
      assert ([c] + w)[..room] == [c] + w[..room - 1];
    }
  }

  /** A run creates the items the pages call for, in order, up to the cap: the first
      `MaxNum - |created so far|` of them. */
  lemma {:induction false} RunCreatesWanted(eff: Effects, pages: seq<PageInfo>, skip: set<string>, rule: AgeRule)
    requires |eff.created| < MaxNum
    ensures RunFrom(eff, pages, skip, rule).created
            == eff.created + Take(Wanted(pages, skip, rule), MaxNum - |eff.created|)
    decreases |pages|
  {
    if pages == [] {
      assert eff.created + [] == eff.created;
    } else {
      var p := pages[0];
      var rest := pages[1..];
      var wr := Wanted(rest, skip, rule);
      if Classify(p, skip, rule) != Eligible || !p.confirm {
        var next := if Classify(p, skip, rule) != Eligible then eff else Effects(eff.created, eff.touched + [p.title]);
        assert eff.created + [] == eff.created;
        assert RunFrom(eff, pages, skip, rule) == RunFrom(next, rest, skip, rule);
        assert Wanted(pages, skip, rule) == wr;
        RunCreatesWanted(next, rest, skip, rule);
      } else {
        var c := CreationFor(p);
        var next := Effects(eff.created + [c], eff.touched + [p.title]);
        assert RunFrom(eff, pages, skip, rule) == if |next.created| >= MaxNum then next else RunFrom(next, rest, skip, rule);
        assert Wanted(pages, skip, rule) == [c] + wr;
        if |next.created| >= MaxNum {
          assert Take(wr, 0) == [];
          assert next.created + [] == next.created;
        } else {
          RunCreatesWanted(next, rest, skip, rule);
        }
        AppendTake(eff.created, c, wr);
      }
    }
  }

  /** Moving the first wanted item onto the items created so far leaves one place less. */
  lemma AppendTake(created: seq<Creation>, c: Creation, wr: seq<Creation>)
    requires |created| < MaxNum
    ensures (created + [c]) + Take(wr, MaxNum - |created| - 1) == created + Take([c] + wr, MaxNum - |created|)
  {
    TakeCons(c, wr, MaxNum - |created|);
  }

  /** At most `MaxNum` items are created in a run. */
  lemma RunCap(pages: seq<PageInfo>, skip: set<string>, rule: AgeRule)
    ensures |RunFrom(Effects([], []), pages, skip, rule).created| <= MaxNum
  {
    RunCreatesWanted(Effects([], []), pages, skip, rule);
  }

  /** With fewer than `MaxNum` eligible, confirmed pages, each of them becomes an item. */
  lemma RunCreatesAll(pages: seq<PageInfo>, skip: set<string>, rule: AgeRule)
    requires |Wanted(pages, skip, rule)| <= MaxNum
    ensures RunFrom(Effects([], []), pages, skip, rule).created == Wanted(pages, skip, rule)
  {
    RunCreatesWanted(Effects([], []), pages, skip, rule);
  }

  /** As written, no page is eligible, so the run creates nothing. */
  lemma {:induction false} AsWrittenWantsNothing(pages: seq<PageInfo>, skip: set<string>)
    ensures Wanted(pages, skip, SecondsOnly) == []
    decreases |pages|
  {
    if pages != [] {
      AsWrittenNeverEligible(pages[0], skip);
      AsWrittenWantsNothing(pages[1..], skip);
    }
  }

  lemma AsWrittenCreatesNothing(pages: seq<PageInfo>, skip: set<string>)
    ensures RunFrom(Effects([], []), pages, skip, SecondsOnly).created == []
  {
    AsWrittenWantsNothing(pages, skip);
    RunCreatesWanted(Effects([], []), pages, skip, SecondsOnly);
  }

  /** With the intended ages, a page edited and created at least a week ago, without an
      item, skip template or redirect, and confirmed, is created when it is the first page. */
  lemma WholeAgeCreates(p: PageInfo, skip: set<string>, rest: seq<PageInfo>)
    requires p.ns == MainNs && !p.isRedirect && !p.isCategoryRedirect && !p.hasItem && p.confirm
    requires forall t :: t in p.templates ==> t !in skip
    requires p.sinceEdit.days >= SearchDays && p.sinceCreation.days >= EditDays
    ensures var c := RunFrom(Effects([], []), [p] + rest, skip, WholeAge).created;
            |c| >= 1 && c[0] == CreationFor(p)
  {
    EligibleIff(p, skip);
    assert ([p] + rest)[0] == p && ([p] + rest)[1..] == rest;
    RunCreatesWanted(Effects([], []), [p] + rest, skip, WholeAge);
  }
}
