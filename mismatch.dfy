/** The English-Wikipedia/Wikidata mismatch reporter (wikidata_enwiki_mismatch.py).

    For every sub-category of the tracking category, the script reads which Wikidata property
    and which local template the category tracks from the category's own tracking template,
    then looks at the first few member pages: it takes the page's local id from that template,
    compares it with the property's single claim on the page's item and prints a CSV-like
    line when they differ. The wiki client is not modelled: a category is its list of
    templates with parameters and its list of member pages, and a page carries its title,
    its templates and the claims of its item (absent when the item lookup fails). */
module Mismatch {
  import opened Common
  import opened Text

  /** At most this many member pages of a category are examined. */
  const MaxPerCat := 5
  const TrackingTemplate := "Wikidata tracking category"
  const UrlPrefix := "http://en.wikipedia.org/wiki/"

  /** A transcluded template: its title and its parameters as `name=value` or positional texts. */
  datatype Template = Template(title: string, params: seq<string>)

  // ---------------------------------------------------------------------------
  // Parameter values

  /** `val.split('=')[1].strip()`; absent when `val` has no `=` (the index raises). */
  function ParamValue(val: string): (r: Option<string>)
    ensures r.None? <==> !Contains(val, "=")
  {
    SplitCount(val, "=");
    if Contains(val, "=") then Some(Strip(Split(val, "=")[1])) else None
  }

  /** For `name=value` and `name=value=more` with no `=` in the name or value, the
      parameter's value is the stripped `value`. */
  lemma ParamValueOf(name: string, value: string, more: Option<string>)
    requires '=' !in name && '=' !in value
    ensures more.None? ==> ParamValue(name + "=" + value) == Some(Strip(value))
    ensures more.Some? ==> ParamValue(name + "=" + value + "=" + more.value) == Some(Strip(value))
  {
    var val := if more.None? then name + "=" + value else name + "=" + value + "=" + more.value;
    var post := if more.None? then value else value + "=" + more.value;
    assert val == name + ['='] + post;
    SplitCharFirst(name, '=', post);
    if more.None? {
      SplitCharNone(value, '=');
    } else {
      SplitCharFirst(value, '=', more.value);
    }
    SplitCount(val, "=");
  }

  // ---------------------------------------------------------------------------
  // The tracking template of a category: property and template name (lines 20-28)

  /** What the scan of a category's templates yields: the two values, or the index error
      raised by a `property`/`template` parameter without `=`, which ends the script. */
  datatype Scan = Scan(propid: string, templatename: string) | IndexError

  /** A parameter whose value the scan needs but cannot split. */
  predicate Unsplittable(val: string)
  {
    (Contains(val, "property") || Contains(val, "template")) && !Contains(val, "=")
  }

  /** One parameter of the tracking template: a `property` parameter sets the property id,
      then a `template` parameter sets the template name. */
  function ScanParam(sc: Scan, val: string): (r: Scan)
    requires sc.Scan?
    ensures r.IndexError? <==> Unsplittable(val)
  {
    var sc1 :=
      if !Contains(val, "property") then sc
      else match ParamValue(val)
        case None => IndexError
        case Some(v) => sc.(propid := v);
    if sc1.IndexError? || !Contains(val, "template") then sc1
    else match ParamValue(val)
      case None => IndexError
      case Some(v) => sc1.(templatename := v)
  }

  function ScanParams(sc: Scan, vals: seq<string>): Scan
    decreases |vals|
  {
    if vals == [] || sc.IndexError? then sc else ScanParams(ScanParam(sc, vals[0]), vals[1..])
  }

  predicate IsTracking(t: Template)
  {
    Contains(t.title, TrackingTemplate)
  }

  /** The parameters of the tracking templates, in order. */
  function TrackingParams(ts: seq<Template>): seq<string>
    decreases |ts|
  {
    if ts == [] then [] else (if IsTracking(ts[0]) then ts[0].params else []) + TrackingParams(ts[1..])
  }

  /** The scan of a category's templates, starting from two empty values. */
  function ScanCategory(ts: seq<Template>): Scan
  {
    ScanParams(Scan("", ""), TrackingParams(ts))
  }

  lemma {:induction false} ScanParamsAppend(sc: Scan, a: seq<string>, b: seq<string>)
    ensures ScanParams(sc, a + b) == ScanParams(ScanParams(sc, a), b)
    decreases |a|
  {
    if a == [] {
      assert a + b == b;
    } else if sc.Scan? {
      assert (a + b)[0] == a[0] && (a + b)[1..] == a[1..] + b;
      ScanParamsAppend(ScanParam(sc, a[0]), a[1..], b);
    } else {
      assert a + b != [];
    }
  }

  /** The scan fails exactly when some parameter it reads cannot be split. */
  lemma {:induction false} ScanFails(sc: Scan, vals: seq<string>)
    requires sc.Scan?
    ensures ScanParams(sc, vals).IndexError? <==> exists k :: 0 <= k < |vals| && Unsplittable(vals[k])
    decreases |vals|
  {
    if vals != [] {
      var sc1 := ScanParam(sc, vals[0]);
      UnsplittableCons(vals);
      if sc1.Scan? {
        ScanFails(sc1, vals[1..]);
      }
    }
  }

  lemma UnsplittableCons(vals: seq<string>)
    requires vals != []
    ensures (exists k :: 0 <= k < |vals| && Unsplittable(vals[k]))
            <==> Unsplittable(vals[0]) || exists k :: 0 <= k < |vals[1..]| && Unsplittable(vals[1..][k])
  {
    if exists k :: 0 <= k < |vals| && Unsplittable(vals[k]) {
      var k :| 0 <= k < |vals| && Unsplittable(vals[k]);
      if k != 0 {
        assert vals[1..][k - 1] == vals[k];
      }
    }
    if exists k :: 0 <= k < |vals[1..]| && Unsplittable(vals[1..][k]) {
      var k :| 0 <= k < |vals[1..]| && Unsplittable(vals[1..][k]);
      assert vals[k + 1] == vals[1..][k];
    }
  }

  /** `k` is the last position whose parameter mentions `key`. */
  predicate LastWith(vals: seq<string>, key: string, k: int)
  {
    0 <= k < |vals| && Contains(vals[k], key) && forall j :: k < j < |vals| ==> !Contains(vals[j], key)
  }

  /** The last match wins: when the scan succeeds, each value is the one of the last
      parameter mentioning its key, or the starting value when none does. */
  lemma {:induction false} ScanLastWins(sc: Scan, vals: seq<string>)
    requires sc.Scan?
    requires forall k :: 0 <= k < |vals| ==> !Unsplittable(vals[k])
    ensures ScanParams(sc, vals).Scan?
    ensures (forall k :: 0 <= k < |vals| ==> !Contains(vals[k], "property")) ==>
              ScanParams(sc, vals).propid == sc.propid
    ensures forall k :: LastWith(vals, "property", k) ==>
              ParamValue(vals[k]) == Some(ScanParams(sc, vals).propid)
    ensures (forall k :: 0 <= k < |vals| ==> !Contains(vals[k], "template")) ==>
              ScanParams(sc, vals).templatename == sc.templatename
    ensures forall k :: LastWith(vals, "template", k) ==>
              ParamValue(vals[k]) == Some(ScanParams(sc, vals).templatename)
    decreases |vals|
  {
    if vals != [] {
      var v := vals[0];
      var rest := vals[1..];
      var sc1 := ScanParam(sc, v);
      assert !Unsplittable(v);
      forall k | 0 <= k < |rest| ensures !Unsplittable(rest[k]) {
        assert rest[k] == vals[k + 1];
      }
      ScanLastWins(sc1, rest);
      var r := ScanParams(sc, vals);
      assert r == ScanParams(sc1, rest);
      LastWinsKey(vals, "property", sc.propid, sc1.propid, r.propid);
      LastWinsKey(vals, "template", sc.templatename, sc1.templatename, r.templatename);
    }
  }

  /** The induction step of `ScanLastWins`, for one key. */
  lemma LastWinsKey(vals: seq<string>, key: string, before: string, after: string, result: string)
    requires vals != []
    requires !Contains(vals[0], key) ==> after == before
    requires Contains(vals[0], key) ==> ParamValue(vals[0]) == Some(after)
    requires (forall k :: 0 <= k < |vals[1..]| ==> !Contains(vals[1..][k], key)) ==> result == after
    requires forall k :: LastWith(vals[1..], key, k) ==> ParamValue(vals[1..][k]) == Some(result)
    ensures (forall k :: 0 <= k < |vals| ==> !Contains(vals[k], key)) ==> result == before
    ensures forall k :: LastWith(vals, key, k) ==> ParamValue(vals[k]) == Some(result)
  {
    var rest := vals[1..];
    if forall k :: 0 <= k < |vals| ==> !Contains(vals[k], key) {
      forall k | 0 <= k < |rest| ensures !Contains(rest[k], key) {
        assert rest[k] == vals[k + 1];
      }
    }
    forall k | LastWith(vals, key, k) ensures ParamValue(vals[k]) == Some(result) {
      if k == 0 {
        forall j | 0 <= j < |rest| ensures !Contains(rest[j], key) {
          assert rest[j] == vals[j + 1];
        }
      } else {
        forall j | k - 1 < j < |rest| ensures !Contains(rest[j], key) {
          assert rest[j] == vals[j + 1];
        }
        assert rest[k - 1] == vals[k];
        assert LastWith(rest, key, k - 1);
      }
    }
  }

  /** A tracking template `{{Wikidata tracking category|property=P|template=T}}` yields the
      stripped `P` and `T`. */
  lemma TrackingPair(pv: string, tv: string)
    requires '=' !in pv && '=' !in tv
    requires !Contains("property=" + pv, "template") && !Contains("template=" + tv, "property")
    ensures ScanParams(Scan("", ""), ["property=" + pv, "template=" + tv]) == Scan(Strip(pv), Strip(tv))
  {
    var a := "property=" + pv;
    var b := "template=" + tv;
    PropertyParam(Scan("", ""), pv);
    var s1 := Scan(Strip(pv), "");
    TemplateParam(s1, tv);
    var s2 := Scan(Strip(pv), Strip(tv));
    assert [a, b][0] == a && [a, b][1..] == [b] && [b][0] == b && [b][1..] == [];
    assert ScanParams(s1, [b]) == s2;
    assert ScanParams(Scan("", ""), [a, b]) == ScanParams(s1, [b]);
  }

  lemma PropertyParam(sc: Scan, pv: string)
    requires sc.Scan? && '=' !in pv && !Contains("property=" + pv, "template")
    ensures ScanParam(sc, "property=" + pv) == sc.(propid := Strip(pv))
  {
    assert "property" + "=" + pv == "property=" + pv;
    KeyParam("property", pv);
  }

  lemma TemplateParam(sc: Scan, tv: string)
    requires sc.Scan? && '=' !in tv && !Contains("template=" + tv, "property")
    ensures ScanParam(sc, "template=" + tv) == sc.(templatename := Strip(tv))
  {
    assert "template" + "=" + tv == "template=" + tv;
    KeyParam("template", tv);
  }

  /** `key=v` mentions `key` and has the value `v` stripped. */
  lemma KeyParam(key: string, v: string)
    requires '=' !in key && '=' !in v
    ensures Contains(key + "=" + v, key) && ParamValue(key + "=" + v) == Some(Strip(v))
  {
    assert OccursAt(key + "=" + v, key, 0) by {
      assert (key + "=" + v)[..|key|] == key;
    }
    ParamValueOf(key, v, None);
  }

  /** Lines 24-28: the loop over one tracking template's parameters. */
  method ScanTemplateParams(propid0: string, templatename0: string, params: seq<string>) returns (sc: Scan)
    ensures sc == ScanParams(Scan(propid0, templatename0), params)
  {
    sc := Scan(propid0, templatename0);
    var j := 0;
    while j < |params|
      invariant 0 <= j <= |params| && sc.Scan?
      invariant ScanParams(sc, params[j..]) == ScanParams(Scan(propid0, templatename0), params)
    {
      SuffixCons(params, j);
      sc := ScanOneParam(sc.propid, sc.templatename, params[j]);
      if sc.IndexError? {
        return;
      }
      j := j + 1;
    }
    assert params[j..] == [];
  }

  /** Lines 25-28: one parameter; `split('=')[1]` fails when there is no `=`. */
  method ScanOneParam(propid0: string, templatename0: string, val: string) returns (sc: Scan)
    ensures sc == ScanParam(Scan(propid0, templatename0), val)
  {
    var propid := propid0;
    var templatename := templatename0;
    if Contains(val, "property") {
      if !Contains(val, "=") {
        return IndexError;
      }
      SplitCount(val, "=");
      propid := Strip(Split(val, "=")[1]);
    }
    if Contains(val, "template") {
      if !Contains(val, "=") {
        return IndexError;
      }
      SplitCount(val, "=");
      templatename := Strip(Split(val, "=")[1]);
    }
    sc := Scan(propid, templatename);
  }

  /** Lines 18-28: the loop over the category's templates. */
  method ReadTrackingParams(templates: seq<Template>) returns (sc: Scan)
    ensures sc == ScanCategory(templates)
  {
    sc := Scan("", "");
    var i := 0;
    while i < |templates|
      invariant 0 <= i <= |templates| && sc.Scan?
      invariant ScanParams(sc, TrackingParams(templates[i..])) == ScanCategory(templates)
    {
      var template := templates[i];
      SuffixCons(templates, i);
      ghost var later := TrackingParams(templates[i + 1..]);
      if Contains(template.title, TrackingTemplate) {
        assert TrackingParams(templates[i..]) == template.params + later;
        ScanParamsAppend(sc, template.params, later);
        sc := ScanTemplateParams(sc.propid, sc.templatename, template.params);
        if sc.IndexError? {
          return;
        }
      } else {
        assert TrackingParams(templates[i..]) == later;
      }
      i := i + 1;
    }
  }

  // ---------------------------------------------------------------------------
  // The skip rule (line 34)

  /** Line 34 as written: `propid == '' or template == ''`. `template` there is the
      (title, parameters) pair left over from the loop above, never equal to a string, so
      only the property id is checked. */
  predicate SkipAsWritten(propid: string, templatename: string)
  {
    propid == ""
  }

  /** The evident intent of line 34: skip a category that lacks either value. */
  predicate Skip(propid: string, templatename: string)
  {
    propid == "" || templatename == ""
  }

  /** Which reading of line 34 a run uses: as written (only an empty property id skips) or
      as intended (an empty template name skips too). */
  datatype SkipRule = SkipAsWrittenRule | SkipIntendedRule

  predicate Skips(rule: SkipRule, propid: string, templatename: string)
  {
    match rule
    case SkipAsWrittenRule => SkipAsWritten(propid, templatename)
    case SkipIntendedRule => Skip(propid, templatename)
  }

  // ---------------------------------------------------------------------------
  // The local id of a page (lines 45-56)

  /** What one parameter offers as local id: a positional parameter verbatim, an `id=`
      parameter its stripped value, anything else nothing. */
  function Candidate(val: string): (r: string)
    ensures !Contains(val, "=") ==> r == val
    ensures Contains(val, "=") && !Contains(val, "id=") ==> r == ""
    ensures Contains(val, "id=") ==> Some(r) == ParamValue(val)
  {
    ContainsIdEq(val);
    if !Contains(val, "=") then val
    else if Contains(val, "id=") then ParamValue(val).value
    else ""
  }

  lemma ContainsIdEq(val: string)
    ensures Contains(val, "id=") ==> Contains(val, "=")
  {
    if Contains(val, "id=") {
      var i :| 0 <= i <= |val| - 3 && OccursAt(val, "id=", i);
      assert val[i..i + 3][2] == '=';
      assert val[i + 2..i + 3] == "=";
      assert OccursAt(val, "=", i + 2);
    }
  }

  /** A local id once found is kept; while it is empty, the next parameter's candidate is taken. */
  function LocalIdFold(localid: string, vals: seq<string>): string
    decreases |vals|
  {
    if vals == [] then localid
    else LocalIdFold(if localid == "" then Candidate(vals[0]) else localid, vals[1..])
  }

  /** The parameters of the page's templates whose title contains the template name. */
  function MatchingParams(ts: seq<Template>, name: string): seq<string>
    decreases |ts|
  {
    if ts == [] then []
    else (if Contains(ts[0].title, name) then ts[0].params else []) + MatchingParams(ts[1..], name)
  }

  function LocalIdOf(ts: seq<Template>, name: string): string
  {
    LocalIdFold("", MatchingParams(ts, name))
  }

  lemma {:induction false} LocalIdFoldAppend(localid: string, a: seq<string>, b: seq<string>)
    ensures LocalIdFold(localid, a + b) == LocalIdFold(LocalIdFold(localid, a), b)
    decreases |a|
  {
    if a == [] {
      assert a + b == b;
    } else {
      assert (a + b)[0] == a[0] && (a + b)[1..] == a[1..] + b;
      LocalIdFoldAppend(if localid == "" then Candidate(a[0]) else localid, a[1..], b);
    }
  }

  /** `k` is the first position offering a non-empty local id. */
  predicate FirstCandidate(vals: seq<string>, k: int)
  {
    0 <= k < |vals| && Candidate(vals[k]) != "" && forall j :: 0 <= j < k ==> Candidate(vals[j]) == ""
  }

  /** The first match wins: a non-empty local id never changes, and from an empty one the
      result is the first non-empty candidate, or empty when there is none. */
  lemma {:induction false} LocalIdFirstWins(localid: string, vals: seq<string>)
    ensures localid != "" ==> LocalIdFold(localid, vals) == localid
    ensures localid == "" && (forall k :: 0 <= k < |vals| ==> Candidate(vals[k]) == "") ==>
              LocalIdFold(localid, vals) == ""
    ensures localid == "" ==> forall k :: FirstCandidate(vals, k) ==> LocalIdFold(localid, vals) == Candidate(vals[k])
    decreases |vals|
  {
    if vals != [] {
      var rest := vals[1..];
      var next := if localid == "" then Candidate(vals[0]) else localid;
      LocalIdFirstWins(next, rest);
      if localid == "" {
        if forall k :: 0 <= k < |vals| ==> Candidate(vals[k]) == "" {
          assert Candidate(vals[0]) == "";
          forall k | 0 <= k < |rest| ensures Candidate(rest[k]) == "" {
            assert rest[k] == vals[k + 1];
          }
        }
        forall k | FirstCandidate(vals, k) ensures LocalIdFold(localid, vals) == Candidate(vals[k]) {
          if k > 0 {
            assert Candidate(vals[0]) == "";
            assert rest[k - 1] == vals[k];
            forall j | 0 <= j < k - 1 ensures Candidate(rest[j]) == "" {
              assert rest[j] == vals[j + 1];
            }
            assert FirstCandidate(rest, k - 1);
          }
        }
      }
    }
  }

  /** Lines 45-56: the loops over the page's templates and their parameters. */
  method ReadLocalId(templates: seq<Template>, templatename: string) returns (localid: string)
    ensures localid == LocalIdOf(templates, templatename)
  {
    localid := "";
    var i := 0;
    while i < |templates|
      invariant 0 <= i <= |templates|
      invariant LocalIdFold(localid, MatchingParams(templates[i..], templatename)) == LocalIdOf(templates, templatename)
    {
      var template := templates[i];
      SuffixCons(templates, i);
      ghost var later := MatchingParams(templates[i + 1..], templatename);
      if Contains(template.title, templatename) {
        assert MatchingParams(templates[i..], templatename) == template.params + later;
        LocalIdFoldAppend(localid, template.params, later);
        assert template.params[0..] == template.params;
        var j := 0;
        while j < |template.params|
          invariant 0 <= j <= |template.params|
          invariant LocalIdFold(LocalIdFold(localid, template.params[j..]), later) == LocalIdOf(templates, templatename)
        {
          var val := template.params[j];
          SuffixCons(template.params, j);
          ghost var before := localid;
          if !Contains(val, "=") && localid == "" {
            localid := val;
          }
          if Contains(val, "id=") && localid == "" {
            ContainsIdEq(val);
            SplitCount(val, "=");
            localid := Strip(Split(val, "=")[1]);
          }
          assert localid == if before == "" then Candidate(val) else before;
          j := j + 1;
        }
        assert template.params[j..] == [];
      } else {
        assert MatchingParams(templates[i..], templatename) == later;
      }
      i := i + 1;
    }
  }

  // ---------------------------------------------------------------------------
  // Claims and the report line (lines 59-83)

  /** The target of a claim: a page-valued target (an item, a property, a file or a lexeme)
      given by its page title, a string (also an external id), or a value without a
      `title()` (a quantity, a time, a coordinate, a monolingual text, no value). */
  datatype Target = PageTarget(title: string) | TextTarget(text: string) | OtherTarget

  datatype Claim = Claim(snak: string, target: Target)

  /** `clm.getTarget().title()`: a page-valued target's title, a string title-cased,
      otherwise absent (the attribute error, caught by the page's `except`). */
  function TargetTitle(t: Target): (r: Option<string>)
    ensures r.None? <==> t.OtherTarget?
  {
    match t
    case PageTarget(title) => Some(title)
    case TextTarget(s) => Some(Title(s))
    case OtherTarget => None
  }

  /** A string value is title-cased before the comparison while the local id is not: a
      page whose local id is exactly the Wikidata string is still reported whenever
      title-casing changes it (an IMDb id `nm1` becomes `Nm1`). */
  lemma StringClaimComparedTitleCased(snak: string, v: string, propid: string, title: string)
    requires Strip(v) != Strip(Title(v))
    ensures SingleClaimReport([Claim(snak, TextTarget(v))], propid, v, title)
            == Some(ReportLine(snak, propid, Title(v), v, title))
  {
  }

  /** The local id `nm1` equal to the Wikidata string `nm1` is reported as a mismatch. */
  lemma EqualIdReported(snak: string, propid: string, title: string)
    ensures SingleClaimReport([Claim(snak, TextTarget("nm1"))], propid, "nm1", title)
            == Some(ReportLine(snak, propid, "Nm1", "nm1", title))
  {
    TitleOfNm1();
    StringClaimComparedTitleCased(snak, "nm1", propid, title);
  }

  lemma TitleOfNm1()
    ensures Title("nm1") == "Nm1" && Strip("nm1") == "nm1" && Strip("Nm1") == "Nm1"
  {
    TitleNm1();
    assert !IsSpace('n') && !IsSpace('N') && !IsSpace('1');
    StripKeeps("nm1");
    StripKeeps("Nm1");
  }

  lemma TitleNm1()
    ensures Title("nm1") == "Nm1"
  {
    var s := "nm1";
    var t := Title(s);
    assert t[0] == TitleChar(false, 'n') == 'N';
    assert IsLetter('n') && t[1] == TitleChar(true, 'm') == 'm';
    assert IsLetter('m') && t[2] == TitleChar(true, '1') == '1';
  }

  /** A member page: its title, its templates, and its item's claims by property id
      (absent when the item cannot be fetched). */
  datatype Page = Page(title: string, templates: seq<Template>, claims: Option<map<string, seq<Claim>>>)

  /** The printed line: snak id, property, Wikidata value, local id, page URL. */
  function ReportLine(snak: string, propid: string, compval: string, localid: string, title: string): string
  {
    Join([snak, propid, compval, localid, UrlPrefix + Replace(title, " ", "_")], ",")
  }

  /** The report line splits back on `,` into its five fields when none of the texts holds a
      comma, and the URL holds no space. */
  lemma ReportLineFields(snak: string, propid: string, compval: string, localid: string, title: string)
    requires ',' !in snak && ',' !in propid && ',' !in compval && ',' !in localid && ',' !in title
    ensures Split(ReportLine(snak, propid, compval, localid, title), ",")
            == [snak, propid, compval, localid, UrlPrefix + MapChar(title, ' ', '_')]
    ensures ' ' !in MapChar(title, ' ', '_')
  {
    ReplaceCharMaps(title, ' ', '_');
    var url := UrlPrefix + MapChar(title, ' ', '_');
    assert ',' !in url by {
      forall i | 0 <= i < |url| ensures url[i] != ',' {
        if i >= |UrlPrefix| {
          assert url[i] == MapChar(title, ' ', '_')[i - |UrlPrefix|];
        }
      }
    }
    SplitJoin([snak, propid, compval, localid, url], ',');
  }

  /** Lines 75-81: a record needs exactly one claim, with a title, differing from the local
      id once both are stripped. */
  function SingleClaimReport(claims: seq<Claim>, propid: string, localid: string, title: string): Option<string>
  {
    if |claims| != 1 then None
    else match TargetTitle(claims[0].target)
      case None => None
      case Some(compval) =>
        if Strip(localid) != Strip(compval)
        then Some(ReportLine(claims[0].snak, propid, compval, localid, title))
        else None
  }

  /** Lines 75-83: the loop over the claims, counting them and keeping the last one's snak id
      and target title; a target without a title abandons the page. */
  method CompareClaims(claims: seq<Claim>, propid: string, localid: string, title: string) returns (out: Option<string>)
    ensures out == SingleClaimReport(claims, propid, localid, title)
  {
    var count := 0;
    var snakid := "";
    var compval := "";
    var i := 0;
    while i < |claims|
      invariant 0 <= i <= |claims| && count == i
      invariant i > 0 ==> snakid == claims[i - 1].snak && TargetTitle(claims[i - 1].target) == Some(compval)
    {
      var clm := claims[i];
      snakid := clm.snak;
      count := count + 1;
      match TargetTitle(clm.target) {
        case None =>
          assert |claims| != 1 || TargetTitle(claims[0].target).None?;
          return None;
        case Some(t) =>
          compval := t;
      }
      i := i + 1;
    }
    assert count == |claims|;
    if count == 1 && Strip(localid) != Strip(compval) {
      assert claims[0].snak == snakid && TargetTitle(claims[0].target) == Some(compval);
      out := Some(ReportLine(snakid, propid, compval, localid, title));
    } else {
      out := None;
    }
  }

  /** What a page contributes: a line when it has a local id, an item, a claim list for the
      property, and that list yields a record. */
  function PageReport(page: Page, propid: string, templatename: string): (r: Option<string>)
    ensures r.Some? ==> LocalIdOf(page.templates, templatename) != "" && page.claims.Some?
                        && propid in page.claims.value && |page.claims.value[propid]| == 1
  {
    var localid := LocalIdOf(page.templates, templatename);
    if localid == "" || page.claims.None? || propid !in page.claims.value then None
    else SingleClaimReport(page.claims.value[propid], propid, localid, page.title)
  }

  /** Lines 44-83 for one page. */
  method ProcessPage(page: Page, propid: string, templatename: string) returns (out: Option<string>)
    ensures out == PageReport(page, propid, templatename)
  {
    var localid := ReadLocalId(page.templates, templatename);
    if localid == "" {
      return None;
    }
    if page.claims.None? {
      return None;
    }
    var item := page.claims.value;
    if propid !in item {
      return None;
    }
    out := CompareClaims(item[propid], propid, localid, page.title);
  }

  /** A page none of whose templates has the template name in its title reports nothing. */
  lemma {:induction false} NoNamedTemplateNoReport(page: Page, propid: string, templatename: string)
    requires forall t :: t in page.templates ==> !Contains(t.title, templatename)
    ensures PageReport(page, propid, templatename) == None
  {
    NoMatchingParams(page.templates, templatename);
  }

  lemma {:induction false} NoMatchingParams(ts: seq<Template>, name: string)
    requires forall t :: t in ts ==> !Contains(t.title, name)
    ensures MatchingParams(ts, name) == []
    decreases |ts|
  {
    if ts != [] {
      assert ts[0] in ts;
      assert forall t :: t in ts[1..] ==> t in ts;
      NoMatchingParams(ts[1..], name);
    }
  }

  // ---------------------------------------------------------------------------
  // A category (lines 15-85 for one sub-category)

  datatype Category = Category(templates: seq<Template>, pages: seq<Page>)

  function Min(a: int, b: int): int
  {
    if a <= b then a else b
  }

  function OptionLine(o: Option<string>): seq<string>
  {
    if o.Some? then [o.value] else []
  }

  /** The lines printed for a list of pages, in order. */
  function Reports(pages: seq<Page>, propid: string, templatename: string): (r: seq<string>)
    ensures |r| <= |pages|
    decreases |pages|
  {
    if pages == [] then []
    else Reports(pages[..|pages| - 1], propid, templatename)
         + OptionLine(PageReport(pages[|pages| - 1], propid, templatename))
  }

  lemma ReportsSnoc(pages: seq<Page>, k: nat, propid: string, templatename: string)
    requires k < |pages|
    ensures Reports(pages[..k + 1], propid, templatename)
            == Reports(pages[..k], propid, templatename) + OptionLine(PageReport(pages[k], propid, templatename))
  {
    assert pages[..k + 1][..k] == pages[..k];
  }

  /** The lines printed for a category, or absent when its scan raises the index error
      that ends the script. Only the first `MaxPerCat` pages are looked at. */
  function CategoryReports(cat: Category, rule: SkipRule): Option<seq<string>>
  {
    match ScanCategory(cat.templates)
    case IndexError => None
    case Scan(propid, templatename) =>
      if Skips(rule, propid, templatename) then Some([])
      else Some(Reports(cat.pages[..Min(MaxPerCat, |cat.pages|)], propid, templatename))
  }

  /** Lines 15-85 for one sub-category: the scan, the skip rule, and the page loop that
      counts pages and passes over those beyond the cap. */
  method ProcessCategory(cat: Category, rule: SkipRule) returns (out: Option<seq<string>>)
    ensures out == CategoryReports(cat, rule)
  {
    var sc := ReadTrackingParams(cat.templates);
    if sc.IndexError? {
      return None;
    }
    var propid := sc.propid;
    var templatename := sc.templatename;
    if Skips(rule, propid, templatename) {
      return Some([]);
    }
    var lines := [];
    var i := 0;
    var k := 0;
    while k < |cat.pages|
      invariant 0 <= k <= |cat.pages| && i == k
      invariant lines == Reports(cat.pages[..Min(MaxPerCat, k)], propid, templatename)
    {
      var page := cat.pages[k];
      i := i + 1;
      if i <= MaxPerCat {
        var line := ProcessPage(page, propid, templatename);
        ReportsSnoc(cat.pages, k, propid, templatename);
        lines := lines + OptionLine(line);
      }
      k := k + 1;
    }
    assert cat.pages[..Min(MaxPerCat, |cat.pages|)] == cat.pages[..Min(MaxPerCat, k)];
    return Some(lines);
  }

  /** A category prints at most `MaxPerCat` lines. */
  lemma CategoryCap(cat: Category, rule: SkipRule)
    ensures CategoryReports(cat, rule).Some? ==> |CategoryReports(cat, rule).value| <= MaxPerCat
  {
  }

  /** Pages past the cap are passed over, not fatal: adding pages after the first
      `MaxPerCat` changes nothing. */
  lemma LaterPagesIgnored(cat: Category, extra: seq<Page>, rule: SkipRule)
    requires |cat.pages| >= MaxPerCat
    ensures CategoryReports(cat.(pages := cat.pages + extra), rule) == CategoryReports(cat, rule)
  {
    assert (cat.pages + extra)[..MaxPerCat] == cat.pages[..MaxPerCat];
  }

  /** With the skip rule as written, a category whose tracking template names a property but
      no template is processed, and every template on a page then counts as the local one:
      a page holding just `{{title|x}}` for an unrelated template gets the local id `x`. */
  lemma SkipAsWrittenReadsAnyTemplate(propid: string, title: string, x: string)
    requires propid != "" && x != "" && '=' !in x
    ensures !SkipAsWritten(propid, "")
    ensures LocalIdOf([Template(title, [x])], "") == x
  {
    assert OccursAt(title, "", 0);
    var ts := [Template(title, [x])];
    assert ts[1..] == [];
    assert MatchingParams(ts, "") == [x];
    ContainsChar(x, '=');
    assert !Contains(x, "=");
    assert Candidate(x) == x;
    assert [x][1..] == [];
    assert LocalIdFold("", [x]) == LocalIdFold(x, []);
  }

  /** With the intended skip rule such a category prints nothing at all. */
  lemma UnnamedCategorySkipped(cat: Category)
    requires ScanCategory(cat.templates).Scan? && ScanCategory(cat.templates).templatename == ""
    ensures CategoryReports(cat, SkipIntendedRule) == Some([])
  {
  }

  /** A category whose tracking template gives a property id and no template name, holding
      one page with an unrelated `{{title|x}}` and a single claim whose value differs from
      `x`: as written the category prints that page's line, as intended it prints nothing. */
  lemma UnnamedCategoryPrintsAsWritten(cat: Category, propid: string, title: string, x: string,
                                       pageTitle: string, snak: string, q: string)
    requires ScanCategory(cat.templates) == Scan(propid, "") && propid != ""
    requires x != "" && '=' !in x && Strip(x) != Strip(q)
    requires cat.pages == [Page(pageTitle, [Template(title, [x])], Some(map[propid := [Claim(snak, PageTarget(q))]]))]
    ensures CategoryReports(cat, SkipAsWrittenRule) == Some([ReportLine(snak, propid, q, x, pageTitle)])
    ensures CategoryReports(cat, SkipIntendedRule) == Some([])
  {
    UnrelatedTemplateReports(propid, title, x, pageTitle, snak, q);
    OnePageCategory(cat, SkipAsWrittenRule, propid, "");
  }

  /** A category of one page that is not skipped prints what that page reports. */
  lemma OnePageCategory(cat: Category, rule: SkipRule, propid: string, templatename: string)
    requires ScanCategory(cat.templates) == Scan(propid, templatename)
    requires !Skips(rule, propid, templatename) && |cat.pages| == 1
    ensures CategoryReports(cat, rule) == Some(OptionLine(PageReport(cat.pages[0], propid, templatename)))
  {
    var pages := cat.pages;
    assert Min(MaxPerCat, |pages|) == 1;
    assert pages[..1] == pages;
    assert CategoryReports(cat, rule) == Some(Reports(pages, propid, templatename));
    ReportsSnoc(pages, 0, propid, templatename);
    assert pages[..0] == [];
    assert Reports(pages[..0], propid, templatename) == [];
    assert Reports(pages, propid, templatename) == OptionLine(PageReport(pages[0], propid, templatename));
  }

  /** With no template name, a page's unrelated `{{title|x}}` supplies the local id `x`,
      and a single differing claim then makes the page report. */
  lemma UnrelatedTemplateReports(propid: string, title: string, x: string, pageTitle: string,
                                 snak: string, q: string)
    requires propid != "" && x != "" && '=' !in x && Strip(x) != Strip(q)
    ensures PageReport(Page(pageTitle, [Template(title, [x])], Some(map[propid := [Claim(snak, PageTarget(q))]])), propid, "")
            == Some(ReportLine(snak, propid, q, x, pageTitle))
  {
    SkipAsWrittenReadsAnyTemplate(propid, title, x);
    var claims := [Claim(snak, PageTarget(q))];
    assert SingleClaimReport(claims, propid, x, pageTitle) == Some(ReportLine(snak, propid, q, x, pageTitle));
  }

  // ---------------------------------------------------------------------------
  // The whole run (lines 14-85)

  /** The lines printed, and whether the run ended on the index error. */
  datatype Output = Output(lines: seq<string>, crashed: bool)

  function RunReports(cats: seq<Category>, rule: SkipRule): Output
    decreases |cats|
  {
    if cats == [] then Output([], false)
    else
      var prev := RunReports(cats[..|cats| - 1], rule);
      if prev.crashed then prev
      else match CategoryReports(cats[|cats| - 1], rule)
        case None => Output(prev.lines, true)
        case Some(lines) => Output(prev.lines + lines, false)
  }

  /** Once the run has crashed, later categories change nothing. */
  lemma {:induction false} CrashStops(cats: seq<Category>, i: nat, rule: SkipRule)
    requires i <= |cats| && RunReports(cats[..i], rule).crashed
    ensures RunReports(cats, rule) == RunReports(cats[..i], rule)
    decreases |cats| - i
  {
    if i < |cats| {
      assert cats[..i + 1][..i] == cats[..i];
      CrashStops(cats, i + 1, rule);
    } else {
      assert cats[..i] == cats;
    }
  }

  /** Every category prints at most `MaxPerCat` lines, so a run prints at most
      `MaxPerCat` lines per category. */
  lemma {:induction false} RunBound(cats: seq<Category>, rule: SkipRule)
    ensures |RunReports(cats, rule).lines| <= MaxPerCat * |cats|
    decreases |cats|
  {
    if cats != [] {
      RunBound(cats[..|cats| - 1], rule);
      CategoryCap(cats[|cats| - 1], rule);
    }
  }

  /** Lines 15-85: the loop over the sub-categories, with line 34 read by `rule`; the index
      error ends the script. */
  method Run(cats: seq<Category>, rule: SkipRule) returns (out: Output)
    ensures out == RunReports(cats, rule)
  {
    out := Output([], false);
    var i := 0;
    while i < |cats|
      invariant 0 <= i <= |cats| && out == RunReports(cats[..i], rule) && !out.crashed
    {
      var r := ProcessCategory(cats[i], rule);
      assert cats[..i + 1][..i] == cats[..i];
      if r.None? {
        out := Output(out.lines, true);
        CrashStops(cats, i + 1, rule);
        return;
      }
      out := Output(out.lines + r.value, false);
      i := i + 1;
    }
    assert cats[..i] == cats;
  }
}
