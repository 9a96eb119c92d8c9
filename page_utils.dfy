/**
 * The two string helpers of the page utilities: `formatGazetteerURI`, which
 * shortens a gazetteer URI to `label:identifier`, and `licenseIcon`, which renders
 * a licence URL as an HTML anchor.
 */
module PageUtils {
  import opened Optional
  import opened JsStrings

  /** `util.formatGazetteerURI(uri)`: the first known gazetteer marker that occurs
      anywhere in `uri` decides the label and the position the identifier is cut from. */
  function FormatGazetteerURI(uri: string): string {
    if Contains(uri, "http://pleiades.stoa.org/places/") then "pleiades:" + Substr(uri, 32)
    else if Contains(uri, "http://dare.ht.lu.se/places/") then "dare:" + Substr(uri, 28)
    else if Contains(uri, "http://gazetteer.dainst.org/place/") then "dai:" + Substr(uri, 34)
    else if Contains(uri, "http://sws.geonames.org/") then "geonames:" + Substr(uri, 24)
    else if Contains(uri, "http://vici.org/vici") then "vici:" + Substr(uri, 21)
    else if Contains(uri, "http://www.trismegistos.org/place/") then "trismegistos:" + Substr(uri, 34)
    else if Contains(uri, "http://nomisma.org/") then "nomisma:" + Substr(uri, 22)
    else if Contains(uri, "http://data.pastplace.org") then "pastplace:" + Substr(uri, 35)
    else if Contains(uri, "http://www.wikidata.org/entity") then "wikidata:" + Substr(uri, 32)
    else uri
  }

  /** One gazetteer: the text that identifies its URIs, the `label:` tag that replaces
      it, and where in the URI the identifier starts. */
  datatype Rule = Rule(marker: string, tag: string, offset: nat)

  /** The gazetteers in the order they are tried. */
  const GazetteerRules: seq<Rule> := [
    Rule("http://pleiades.stoa.org/places/", "pleiades:", 32),
    Rule("http://dare.ht.lu.se/places/", "dare:", 28),
    Rule("http://gazetteer.dainst.org/place/", "dai:", 34),
    Rule("http://sws.geonames.org/", "geonames:", 24),
    Rule("http://vici.org/vici", "vici:", 21),
    Rule("http://www.trismegistos.org/place/", "trismegistos:", 34),
    Rule("http://nomisma.org/", "nomisma:", 22),
    Rule("http://data.pastplace.org", "pastplace:", 35),
    Rule("http://www.wikidata.org/entity", "wikidata:", 32)
  ]

  /** What a rule makes of a URI it matches. */
  function Shorten(rule: Rule, uri: string): string {
    rule.tag + Substr(uri, rule.offset)
  }

  /** The rule table read as "the first rule whose marker occurs wins". */
  function FirstMatch(rules: seq<Rule>, uri: string): string {
    if rules == [] then uri
    else if Contains(uri, rules[0].marker) then Shorten(rules[0], uri)
    else FirstMatch(rules[1..], uri)
  }

  /** One step of the table: a rule is tried before the ones after it. */
  lemma FirstMatchStep(rules: seq<Rule>, k: nat, uri: string)
    requires k < |rules|
    ensures FirstMatch(rules[k..], uri) == if Contains(uri, rules[k].marker) then Shorten(rules[k], uri) else FirstMatch(rules[k + 1..], uri)
  {
    assert rules[k..][1..] == rules[k + 1..];
  }

  /** The last five rules of the table. */
  lemma LaterRules(uri: string)
    ensures FirstMatch(GazetteerRules[4..], uri) ==
      if Contains(uri, "http://vici.org/vici") then "vici:" + Substr(uri, 21)
      else if Contains(uri, "http://www.trismegistos.org/place/") then "trismegistos:" + Substr(uri, 34)
      else if Contains(uri, "http://nomisma.org/") then "nomisma:" + Substr(uri, 22)
      else if Contains(uri, "http://data.pastplace.org") then "pastplace:" + Substr(uri, 35)
      else if Contains(uri, "http://www.wikidata.org/entity") then "wikidata:" + Substr(uri, 32)
      else uri
  {
    var rs := GazetteerRules;
    assert rs[9..] == [];
    FirstMatchStep(rs, 8, uri);
    assert FirstMatch(rs[8..], uri) == if Contains(uri, "http://www.wikidata.org/entity") then "wikidata:" + Substr(uri, 32) else uri;
    FirstMatchStep(rs, 7, uri);
    assert FirstMatch(rs[7..], uri) == if Contains(uri, "http://data.pastplace.org") then "pastplace:" + Substr(uri, 35) else FirstMatch(rs[8..], uri);
    FirstMatchStep(rs, 6, uri);
    assert FirstMatch(rs[6..], uri) == if Contains(uri, "http://nomisma.org/") then "nomisma:" + Substr(uri, 22) else FirstMatch(rs[7..], uri);
    FirstMatchStep(rs, 5, uri);
    assert FirstMatch(rs[5..], uri) == if Contains(uri, "http://www.trismegistos.org/place/") then "trismegistos:" + Substr(uri, 34) else FirstMatch(rs[6..], uri);
    FirstMatchStep(rs, 4, uri);
    assert FirstMatch(rs[4..], uri) == if Contains(uri, "http://vici.org/vici") then "vici:" + Substr(uri, 21) else FirstMatch(rs[5..], uri);
  }

  /** The helper is the rule table applied in order. */
  lemma FormatIsFirstMatch(uri: string)
    ensures FormatGazetteerURI(uri) == FirstMatch(GazetteerRules, uri)
  {
    var rs := GazetteerRules;
    LaterRules(uri);
    FirstMatchStep(rs, 3, uri);
    assert FirstMatch(rs[3..], uri) == if Contains(uri, "http://sws.geonames.org/") then "geonames:" + Substr(uri, 24) else FirstMatch(rs[4..], uri);
    FirstMatchStep(rs, 2, uri);
    assert FirstMatch(rs[2..], uri) == if Contains(uri, "http://gazetteer.dainst.org/place/") then "dai:" + Substr(uri, 34) else FirstMatch(rs[3..], uri);
    FirstMatchStep(rs, 1, uri);
    assert FirstMatch(rs[1..], uri) == if Contains(uri, "http://dare.ht.lu.se/places/") then "dare:" + Substr(uri, 28) else FirstMatch(rs[2..], uri);
    FirstMatchStep(rs, 0, uri);
    assert FirstMatch(rs[0..], uri) == if Contains(uri, "http://pleiades.stoa.org/places/") then "pleiades:" + Substr(uri, 32) else FirstMatch(rs[1..], uri);
    assert rs[0..] == rs;
  }

  /** The rule at position `i` applies when its marker occurs and no earlier one does. */
  lemma {:induction false} FirstMatchAt(rules: seq<Rule>, uri: string, i: nat)
    requires i < |rules| && Contains(uri, rules[i].marker)
    requires forall j :: 0 <= j < i ==> !Contains(uri, rules[j].marker)
    ensures FirstMatch(rules, uri) == Shorten(rules[i], uri)
  {
    if i > 0 {
      FirstMatchAt(rules[1..], uri, i - 1);
    }
  }

  /** With no marker in the URI, the table leaves it alone. */
  lemma {:induction false} FirstMatchNone(rules: seq<Rule>, uri: string)
    requires forall j :: 0 <= j < |rules| ==> !Contains(uri, rules[j].marker)
    ensures FirstMatch(rules, uri) == uri
  {
    if rules != [] {
      FirstMatchNone(rules[1..], uri);
    }
  }

  /** Rule `i` decides the result when its marker occurs and no earlier marker does. */
  lemma GazetteerRuleApplies(uri: string, i: nat)
    requires i < |GazetteerRules| && Contains(uri, GazetteerRules[i].marker)
    requires forall j :: 0 <= j < i ==> !Contains(uri, GazetteerRules[j].marker)
    ensures FormatGazetteerURI(uri) == GazetteerRules[i].tag + Substr(uri, GazetteerRules[i].offset)
  {
    FormatIsFirstMatch(uri);
    FirstMatchAt(GazetteerRules, uri, i);
  }

  /** A URI holding no known marker is returned unchanged. */
  lemma UnknownURIUnchanged(uri: string)
    requires forall j :: 0 <= j < |GazetteerRules| ==> !Contains(uri, GazetteerRules[j].marker)
    ensures FormatGazetteerURI(uri) == uri
  {
    FormatIsFirstMatch(uri);
    FirstMatchNone(GazetteerRules, uri);
  }

  /** Every offset lies at or past the end of its marker and past the length of
      `label:`, so a matching URI always comes out shorter. */
  lemma OffsetsPastMarker(i: nat)
    requires i < |GazetteerRules|
    ensures |GazetteerRules[i].marker| <= GazetteerRules[i].offset
    ensures |GazetteerRules[i].tag| < |GazetteerRules[i].marker|
  {
  }

  /** How far past the end of its marker each rule starts the identifier: not at all
      for pleiades, dare, dai, geonames and trismegistos; one character for vici, three
      for nomisma, ten for pastplace and two for wikidata. */
  lemma OffsetSkips()
    ensures forall i :: 0 <= i < |GazetteerRules| ==>
      GazetteerRules[i].offset - |GazetteerRules[i].marker| == [0, 0, 0, 0, 1, 0, 3, 10, 2][i]
  {
  }

  /** A URI is returned unchanged exactly when it holds none of the markers. */
  lemma UnchangedIffNoMarker(uri: string)
    ensures FormatGazetteerURI(uri) == uri <==> forall j :: 0 <= j < |GazetteerRules| ==> !Contains(uri, GazetteerRules[j].marker)
  {
    FormatIsFirstMatch(uri);
    if j :| 0 <= j < |GazetteerRules| && Contains(uri, GazetteerRules[j].marker) {
      var i := FirstContained(GazetteerRules, uri, j);
      FirstMatchAt(GazetteerRules, uri, i);
      var rule := GazetteerRules[i];
      OffsetsPastMarker(i);
      var at := IndexOf(uri, rule.marker);
      assert |rule.marker| <= |uri|;
      assert |Shorten(rule, uri)| < |uri|;
    } else {
      FirstMatchNone(GazetteerRules, uri);
    }
  }

  /** The first rule whose marker occurs, given that rule `j`'s does. */
  lemma FirstContained(rules: seq<Rule>, uri: string, j: nat) returns (i: nat)
    requires j < |rules| && Contains(uri, rules[j].marker)
    ensures i <= j && Contains(uri, rules[i].marker)
    ensures forall k :: 0 <= k < i ==> !Contains(uri, rules[k].marker)
  {
    i := 0;
    while !Contains(uri, rules[i].marker)
      invariant i <= j
      invariant forall k :: 0 <= k < i ==> !Contains(uri, rules[k].marker)
      decreases j - i
    {
      i := i + 1;
    }
  }

  /** A URI made of a marker and an identifier: the identifier comes out after the
      label, less the characters the offset skips beyond the marker. */
  lemma MarkerThenIdentifier(i: nat, id: string)
    requires i < |GazetteerRules|
    requires forall j :: 0 <= j < i ==> !Contains(GazetteerRules[i].marker + id, GazetteerRules[j].marker)
    ensures var rule := GazetteerRules[i];
      FormatGazetteerURI(rule.marker + id) == rule.tag + Substr(id, rule.offset - |rule.marker|)
  {
    var rule := GazetteerRules[i];
    var uri := rule.marker + id;
    OffsetsPastMarker(i);
    assert MatchesAt(uri, rule.marker, 0);
    ContainsIff(uri, rule.marker, 0);
    GazetteerRuleApplies(uri, i);
    if rule.offset < |uri| {
      assert uri[rule.offset..] == id[rule.offset - |rule.marker|..];
    }
  }

  /** Pleiades: `http://pleiades.stoa.org/places/ID` becomes `pleiades:ID`. */
  lemma PleiadesIdentifier(id: string)
    ensures FormatGazetteerURI("http://pleiades.stoa.org/places/" + id) == "pleiades:" + id
  {
    MarkerThenIdentifier(0, id);
  }

  /** Matching is by containment, and the cut is counted from the start of the URI:
      text before the marker shifts the cut into the marker. */
  lemma MarkerAnywhere(pre: string, rest: string)
    ensures var uri := pre + "http://pleiades.stoa.org/places/" + rest;
      FormatGazetteerURI(uri) == "pleiades:" + uri[32..]
  {
    var marker := "http://pleiades.stoa.org/places/";
    var uri := pre + marker + rest;
    assert uri[|pre|..|pre| + |marker|] == marker;
    ContainsIff(uri, marker, |pre|);
  }

  /** The licences `licenseIcon` recognises. */
  datatype License = ODbL | CC0 | CCByNC

  /** The URL prefix a licence is recognised by. */
  function LicensePrefix(l: License): string {
    match l
    case ODbL => "http://opendatacommons.org/licenses/odbl"
    case CC0 => "http://creativecommons.org/publicdomain/zero/1.0"
    case CCByNC => "http://creativecommons.org/licenses/by-nc"
  }

  /** What follows the URL in the anchor of a licence: its title and its image. */
  function LicenseTail(l: License): string {
    match l
    case ODbL => "\" target=\"_blank\" title=\"Open Data Commons Open Database License (ODbL)\"><img src=\"/api-v3/static/images/open-data-generic.png\"></a>"
    case CC0 => "\" target=\"_blank\" title=\"CC0 Public Domain Dedication\"><img src=\"/api-v3/static/images/cc-zero.png\"></a>"
    case CCByNC => "\" target=\"_blank\" title=\"CC Attribution Non-Commercial (CC BY-NC)\"><img src=\"/api-v3/static/images/cc-by-nc.png\"></a>"
  }

  /** The opening of a licence anchor, up to the URL. */
  const LicenseAnchorStart := "<a class=\"license\" href=\""
  /** The opening of a plain anchor, up to the URL. */
  const PlainAnchorStart := "<a href=\""

  /** The anchor for a recognised licence. */
  function LicenseAnchor(url: string, l: License): string {
    LicenseAnchorStart + url + LicenseTail(l)
  }

  /** The anchor for any other URL. */
  function PlainAnchor(url: string): string {
    PlainAnchorStart + url + "\">" + url + "</a>"
  }

  /** `util.licenseIcon(url)`: the licence prefixes are tried in order, each by
      `indexOf(prefix) == 0`. */
  function LicenseIcon(url: string): string {
    if IndexOf(url, LicensePrefix(ODbL)) == 0 then LicenseAnchorStart + url + LicenseTail(ODbL)
    else if IndexOf(url, LicensePrefix(CC0)) == 0 then LicenseAnchorStart + url + LicenseTail(CC0)
    else if IndexOf(url, LicensePrefix(CCByNC)) == 0 then LicenseAnchorStart + url + LicenseTail(CCByNC)
    else PlainAnchorStart + url + "\">" + url + "</a>"
  }

  /** The licence a URL starts with, if any. */
  function LicenseOf(url: string): Option<License> {
    if LicensePrefix(ODbL) <= url then Some(ODbL)
    else if LicensePrefix(CC0) <= url then Some(CC0)
    else if LicensePrefix(CCByNC) <= url then Some(CCByNC)
    else None
  }

  /** The three prefixes exclude each other, so the order of the tests does not matter:
      a URL is classed under a licence exactly when it starts with its prefix. */
  lemma LicenseOfIff(url: string, l: License)
    ensures LicenseOf(url) == Some(l) <==> LicensePrefix(l) <= url
  {
    var odbl, cc0, ccbync := LicensePrefix(ODbL), LicensePrefix(CC0), LicensePrefix(CCByNC);
    assert odbl[7] == 'o' && cc0[7] == 'c' && ccbync[7] == 'c';
    assert cc0[27] == 'p' && ccbync[27] == 'l';
    if cc0 <= url {
      assert url[7] == 'c' && url[27] == 'p';
    }
    if ccbync <= url {
      assert url[7] == 'c' && url[27] == 'l';
    }
  }

  /** The anchor for a URL classed under licence `o`, or not classed. */
  function Render(url: string, o: Option<License>): string {
    match o
    case Some(l) => LicenseAnchor(url, l)
    case None => PlainAnchor(url)
  }

  /** The three `indexOf(prefix) == 0` tests are the three prefix tests. */
  lemma {:induction false} IndexTestsArePrefixTests(url: string)
    ensures (IndexOf(url, LicensePrefix(ODbL)) == 0) == (LicensePrefix(ODbL) <= url)
    ensures (IndexOf(url, LicensePrefix(CC0)) == 0) == (LicensePrefix(CC0) <= url)
    ensures (IndexOf(url, LicensePrefix(CCByNC)) == 0) == (LicensePrefix(CCByNC) <= url)
  {
    IndexOfZeroIffPrefix(url, LicensePrefix(ODbL));
    IndexOfZeroIffPrefix(url, LicensePrefix(CC0));
    IndexOfZeroIffPrefix(url, LicensePrefix(CCByNC));
  }

  /** A URL starting with a licence prefix gets that licence's anchor. */
  lemma IconOfRecognised(url: string, l: License)
    requires LicenseOf(url) == Some(l)
    ensures LicenseIcon(url) == LicenseAnchor(url, l)
  {
    IndexTestsArePrefixTests(url);
    match l
    case ODbL =>
      assert IndexOf(url, LicensePrefix(ODbL)) == 0;
    case CC0 =>
      assert IndexOf(url, LicensePrefix(ODbL)) != 0;
      assert IndexOf(url, LicensePrefix(CC0)) == 0;
    case CCByNC =>
      assert IndexOf(url, LicensePrefix(ODbL)) != 0;
      assert IndexOf(url, LicensePrefix(CC0)) != 0;
      assert IndexOf(url, LicensePrefix(CCByNC)) == 0;
  }

  /** A URL starting with no licence prefix gets the plain anchor. */
  lemma IconOfUnrecognised(url: string)
    requires LicenseOf(url) == None
    ensures LicenseIcon(url) == PlainAnchor(url)
  {
    IndexTestsArePrefixTests(url);
  }

  /** `licenseIcon` is the licence anchor for a recognised licence and the plain
      anchor otherwise. */
  lemma LicenseIconByLicense(url: string)
    ensures LicenseIcon(url) == Render(url, LicenseOf(url))
  {
    match LicenseOf(url)
    case Some(l) => IconOfRecognised(url, l);
    case None => IconOfUnrecognised(url);
  }

  /** A string built as `start + url + tail` begins with `start` followed by `url`. */
  lemma {:induction false} PiecesOfAnchor(start: string, url: string, tail: string)
    ensures start <= start + url + tail
    ensures MatchesAt(start + url + tail, url, |start|)
  {
    var out := start + url + tail;
    assert out[..|start|] == start;
    assert out[|start|..|start| + |url|] == url;
  }

  /** A licence anchor opens with `<a class="license" href="` and then `url`. */
  lemma LicenseAnchorShape(url: string, l: License)
    ensures LicenseAnchorStart <= LicenseAnchor(url, l)
    ensures MatchesAt(LicenseAnchor(url, l), url, |LicenseAnchorStart|)
  {
    PiecesOfAnchor(LicenseAnchorStart, url, LicenseTail(l));
  }

  /** A plain anchor opens with `<a href="` and then `url`. */
  lemma PlainAnchorShape(url: string)
    ensures PlainAnchorStart <= PlainAnchor(url)
    ensures MatchesAt(PlainAnchor(url), url, |PlainAnchorStart|)
  {
    PiecesOfAnchor(PlainAnchorStart, url, "\">" + url + "</a>");
    assert PlainAnchor(url) == PlainAnchorStart + url + ("\">" + url + "</a>");
  }

  /** Both kinds of anchor open with `<a `, then the `href` holding `url` verbatim; only
      a licence anchor carries class `license`. */
  lemma RenderShape(url: string, o: Option<License>)
    ensures "<a " <= Render(url, o)
    ensures var start := if o.Some? then LicenseAnchorStart else PlainAnchorStart;
      start <= Render(url, o) && MatchesAt(Render(url, o), url, |start|)
    ensures "<a class=\"license\"" <= Render(url, o) <==> o.Some?
  {
    var out := Render(url, o);
    var classed := "<a class=\"license\"";
    if o.Some? {
      LicenseAnchorShape(url, o.value);
      assert out[..|classed|] == LicenseAnchorStart[..|classed|] == classed;
    } else {
      PlainAnchorShape(url);
      assert out[..3] == PlainAnchorStart[..3] == "<a ";
      assert out[3] == 'h' && classed[3] == 'c';
    }
  }

  /** Every output is an anchor with `url` verbatim as its `href`; it carries class
      `license` exactly when the URL starts with a recognised prefix. */
  lemma LicenseIconAnchor(url: string)
    ensures "<a " <= LicenseIcon(url)
    ensures var start := if LicenseOf(url).Some? then LicenseAnchorStart else PlainAnchorStart;
      start <= LicenseIcon(url) && MatchesAt(LicenseIcon(url), url, |start|)
    ensures "<a class=\"license\"" <= LicenseIcon(url) <==> LicenseOf(url).Some?
  {
    LicenseIconByLicense(url);
    RenderShape(url, LicenseOf(url));
  }
}
