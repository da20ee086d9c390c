/**
  Properties of the `--multi-arch` selector parser: rendering and parsing are
  inverse on well-formed clause lists, in both directions; the outcomes of the
  command's test table, for every input of the same shape; and the error
  cases, where nothing but the error is returned.
*/
module MultiArchProperties {
  import opened Wrappers
  import opened Strings
  import opened MultiArch

  // ---------------------------------------------------------------------------
  // Small facts

  lemma ValidDigestIsListItem(d: string)
    requires ValidDigest(d)
    ensures ListItem(d)
  {
    var i := IndexOf(d, ':').value;
    var alg := d[..i];
    assert alg == "sha256" || alg == "sha384" || alg == "sha512";
    assert ',' !in alg && ']' !in alg;
    forall k | 0 <= k < |d|
      ensures d[k] != ',' && d[k] != ']'
    {
      if k < i {
        assert d[k] == alg[k];
      } else if k > i {
        assert IsLowerHex(d[k]);
      }
    }
  }

  lemma PlatformRoundTrip(p: Platform)
    requires ValidPlatform(p)
    ensures ParsePlatform(FormatPlatform(p)) == Some(p)
  {
    if p.variant == "" {
      SplitJoin([p.os, p.architecture], '/');
    } else {
      SplitJoin([p.os, p.architecture, p.variant], '/');
    }
  }

  /** A parsed platform spells its entry, and is valid when the entry is a list item. */
  lemma ParsePlatformInverse(item: string)
    requires ParsePlatform(item).Some?
    ensures FormatPlatform(ParsePlatform(item).value) == item
    ensures ',' !in item && ']' !in item ==> ValidPlatform(ParsePlatform(item).value)
  {
    var parts := Split(item, '/');
    JoinSplit(item, '/');
    if ',' !in item && ']' !in item {
      SplitExcludes(item, '/', ',');
      SplitExcludes(item, '/', ']');
    }
    if |parts| == 2 {
      assert parts == [parts[0], parts[1]];
    } else {
      assert parts == [parts[0], parts[1], parts[2]];
    }
  }

  lemma FormattedPlatformIsListItem(p: Platform)
    requires ValidPlatform(p)
    ensures ListItem(FormatPlatform(p))
  {
    var parts := if p.variant == "" then [p.os, p.architecture] else [p.os, p.architecture, p.variant];
    JoinExcludes(parts, '/', ',');
    JoinExcludes(parts, '/', ']');
  }

  lemma ItemTextsAreListItems(c: Clause)
    requires WellFormedClause(c)
    ensures |ItemTexts(c)| >= 1
    ensures forall i | 0 <= i < |ItemTexts(c)| :: ListItem(ItemTexts(c)[i])
  {
    match c
    case ArchClause(_) =>
    case PlatformClause(ps) =>
      forall i | 0 <= i < |ps| ensures ListItem(FormatPlatforms(ps)[i]) {
        FormattedPlatformIsListItem(ps[i]);
      }
    case DigestClause(ds) =>
      forall i | 0 <= i < |ds| ensures ListItem(ds[i]) {
        ValidDigestIsListItem(ds[i]);
      }
  }

  /** A well-formed clause is rebuilt from its own items. */
  lemma BuildClauseOfItems(c: Clause, text: string)
    requires WellFormedClause(c)
    ensures BuildClause(ClauseKey(c), ItemTexts(c), text) == Ok(c)
  {
    match c
    case ArchClause(_) =>
    case PlatformClause(ps) =>
      var r := ParsePlatforms(FormatPlatforms(ps));
      ParsePlatformsSpec(FormatPlatforms(ps));
      forall i | 0 <= i < |ps| ensures ParsePlatform(FormatPlatforms(ps)[i]) == Some(ps[i]) {
        PlatformRoundTrip(ps[i]);
      }
      assert r.Some?;
      assert r.value == ps;
    case DigestClause(ds) =>
      FirstInvalidDigestSpec(ds);
  }

  /** A clause built from list items is well-formed and gives those items back. */
  lemma BuildClauseInverse(k: Key, items: seq<string>, text: string)
    requires BuildClause(k, items, text).Ok?
    requires |items| >= 1
    requires forall i | 0 <= i < |items| :: ',' !in items[i] && ']' !in items[i]
    ensures ClauseKey(BuildClause(k, items, text).value) == k
    ensures ItemTexts(BuildClause(k, items, text).value) == items
    ensures WellFormedClause(BuildClause(k, items, text).value)
  {
    match k
    case ArchKey =>
    case PlatformKey =>
      var ps := ParsePlatforms(items).value;
      ParsePlatformsSpec(items);
      forall i | 0 <= i < |items|
        ensures FormatPlatform(ps[i]) == items[i] && ValidPlatform(ps[i])
      {
        ParsePlatformInverse(items[i]);
      }
      assert FormatPlatforms(ps) == items;
    case DigestKey =>
      FirstInvalidDigestSpec(items);
  }

  /** The keywords differ in their first character. */
  lemma KeyFirstChar(s: string, k: Key)
    requires HasPrefix(s, KeyName(k) + "=")
    ensures s[0] == (match k case ArchKey => 'a' case PlatformKey => 'p' case DigestKey => 'd')
  {
    PrefixFirst(s, KeyName(k) + "=");
  }

  lemma MatchKeyOf(k: Key, t: string)
    ensures MatchKey(KeyName(k) + "=" + t) == Some(k)
  {
    var s := KeyName(k) + "=" + t;
    assert HasPrefix(s, KeyName(k) + "=") by {
      assert s[..|KeyName(k)| + 1] == KeyName(k) + "=";
    }
    KeyFirstChar(s, k);
    forall k' | HasPrefix(s, KeyName(k') + "=") ensures k' == k {
      KeyFirstChar(s, k');
    }
  }

  /** A clause is parsed by parsing the list after its keyword. */
  lemma ParseClauseOfKey(k: Key, body: string)
    ensures ParseClause(KeyName(k) + "=" + body) == ParseList(k, body)
  {
    MatchKeyOf(k, body);
    var s := KeyName(k) + "=" + body;
    assert s[|KeyName(k)| + 1..] == body;
  }

  /** The pieces of `[inner]t` when `inner` holds no `]`. */
  lemma BracketSlices(inner: string, t: string)
    requires ']' !in inner
    ensures var body := "[" + inner + "]" + t; var j := |inner| + 1;
      && body != "" && body[0] == '[' && IndexOf(body, ']') == Some(j)
      && body[1..j] == inner && body[..j + 1] == "[" + inner + "]" && body[j + 1..] == t
  {
    var body := "[" + inner + "]" + t;
    var j := |inner| + 1;
    assert body == ("[" + inner) + [']'] + t;
    IndexOfAfter("[" + inner, ']', t);
    assert body[1..j] == inner;
    assert body[..j + 1] == "[" + inner + "]";
    assert body[j + 1..] == t;
  }

  /** How a list `[inner]t` whose items hold no `]` is parsed. */
  lemma ParseListOfParts(k: Key, inner: string, t: string)
    requires ']' !in inner
    ensures ParseList(k, "[" + inner + "]" + t) ==
      Attach(BuildClause(k, Split(inner, ','), KeyName(k) + "=" + ("[" + inner + "]")), t)
  {
    BracketSlices(inner, t);
    ParseListClosed(k, "[" + inner + "]" + t, |inner| + 1);
  }

  /** The list a clause holds is opened by `[` and closed by the first `]`. */
  lemma ParseListOpened(k: Key, body: string)
    requires ParseList(k, body).Ok?
    ensures body != "" && body[0] == '[' && IndexOf(body, ']').Some?
  {
  }

  /** Text that opens with `[` and holds a `]` is `[inner]t` with no `]` in `inner`. */
  lemma ListParts(body: string) returns (inner: string, t: string)
    requires body != "" && body[0] == '[' && IndexOf(body, ']').Some?
    ensures ']' !in inner
    ensures body == "[" + inner + "]" + t
  {
    var j := IndexOf(body, ']').value;
    inner := body[1..j];
    t := body[j + 1..];
    assert inner == body[..j][1..];
    assert body == [body[0]] + inner + [body[j]] + t;
  }

  /** Every list the parser accepts has the shape `[inner]t`. */
  lemma ParsedListParts(k: Key, body: string) returns (inner: string, t: string)
    requires ParseList(k, body).Ok?
    ensures ']' !in inner
    ensures body == "[" + inner + "]" + t
  {
    ParseListOpened(k, body);
    inner, t := ListParts(body);
  }

  /** A rendered clause is `key=[items]`. */
  lemma RenderClauseParts(c: Clause, t: string)
    ensures RenderClause(c) + t == KeyName(ClauseKey(c)) + "=" + ("[" + Join(ItemTexts(c), ',') + "]" + t)
  {
  }

  lemma RenderClauseStartsWithKey(c: Clause, t: string)
    ensures MatchKey(RenderClause(c) + t) == Some(ClauseKey(c))
    ensures HasPrefix(RenderClause(c) + t, KeyName(ClauseKey(c)) + "=")
  {
    var k := ClauseKey(c);
    RenderClauseParts(c, t);
    var rest := "[" + Join(ItemTexts(c), ',') + "]" + t;
    assert RenderClause(c) + t == KeyName(k) + "=" + rest;
    MatchKeyOf(k, rest);
  }

  // ---------------------------------------------------------------------------
  // Round trip, clause by clause

  /** Parsing a rendered clause gives the clause back, and the text after it untouched. */
  lemma ParseRenderedClause(c: Clause, t: string)
    requires WellFormedClause(c)
    ensures ParseClause(RenderClause(c) + t) == Ok((c, t))
  {
    var k := ClauseKey(c);
    var items := ItemTexts(c);
    var inner := Join(items, ',');
    RenderClauseParts(c, t);
    ParseClauseOfKey(k, "[" + inner + "]" + t);
    ItemTextsAreListItems(c);
    JoinExcludes(items, ',', ']');
    ParseListOfParts(k, inner, t);
    SplitJoin(items, ',');
    BuildClauseOfItems(c, KeyName(k) + "=" + ("[" + inner + "]"));
  }

  /** A parsed clause is well-formed and is exactly the text it was parsed from. */
  lemma RenderParsedClause(s: string)
    requires ParseClause(s).Ok?
    ensures WellFormedClause(ParseClause(s).value.0)
    ensures s == RenderClause(ParseClause(s).value.0) + ParseClause(s).value.1
  {
    var k := MatchKey(s).value;
    var body := s[|KeyName(k)| + 1..];
    assert s == KeyName(k) + "=" + body;
    ParseClauseOfKey(k, body);
    var inner, t := ParsedListParts(k, body);
    ParseListOfParts(k, inner, t);
    var items := Split(inner, ',');
    JoinSplit(inner, ',');
    SplitExcludes(inner, ',', ']');
    BuildClauseInverse(k, items, KeyName(k) + "=" + ("[" + inner + "]"));
    RenderClauseParts(ParseClause(s).value.0, t);
  }

  // ---------------------------------------------------------------------------
  // Round trip, whole selectors

  /** What follows the first clause decides how the rest is parsed. */
  lemma ParseClausesStep(s: string, c: Clause, rest: string)
    requires ParseClause(s) == Ok((c, rest))
    ensures rest == "" ==> ParseClauses(s) == Ok([c])
    ensures rest != "" && rest[0] != ',' ==> ParseClauses(s) == Err(UnrecognizedValue(rest))
    ensures rest != "" && rest[0] == ',' ==> ParseClauses(s) == Prepend(c, ParseClauses(rest[1..]))
  {
  }

  /** A clause followed by a comma leaves the rest to be parsed on its own. */
  lemma ParseClausesCommaStep(s: string, c: Clause, tail: string)
    requires ParseClause(s) == Ok((c, "," + tail))
    ensures ParseClauses(s) == Prepend(c, ParseClauses(tail))
  {
    assert ("," + tail)[1..] == tail;
  }

  /** A rendered clause followed by a comma leaves the rest to be parsed on its own. */
  lemma ParseRenderedClauseThen(c: Clause, tail: string)
    requires WellFormedClause(c)
    ensures ParseClauses(RenderClause(c) + "," + tail) == Prepend(c, ParseClauses(tail))
  {
    ParseClauseThen(c, tail);
    ParseClausesCommaStep(RenderClause(c) + "," + tail, c, tail);
  }

  lemma ParseClauseThen(c: Clause, tail: string)
    requires WellFormedClause(c)
    ensures ParseClause(RenderClause(c) + "," + tail) == Ok((c, "," + tail))
  {
    assert RenderClause(c) + "," + tail == RenderClause(c) + ("," + tail);
    ParseRenderedClause(c, "," + tail);
  }

  lemma ParseRenderedClauseAlone(c: Clause)
    requires WellFormedClause(c)
    ensures ParseClauses(RenderClause(c)) == Ok([c])
  {
    var s := RenderClause(c);
    assert s == RenderClause(c) + "";
    ParseRenderedClause(c, "");
    ParseClausesStep(s, c, "");
  }

  lemma WellFormedTail(cs: seq<Clause>)
    requires WellFormed(cs) && |cs| > 1
    ensures WellFormed(cs[1..]) && WellFormedClause(cs[0])
  {
    assert forall i | 0 <= i < |cs[1..]| :: cs[1..][i] == cs[i + 1];
  }

  lemma ParseRenderedSingle(cs: seq<Clause>)
    requires |cs| == 1 && WellFormed(cs)
    ensures ParseClauses(Render(cs)) == Ok(cs)
  {
    assert Render(cs) == RenderClause(cs[0]);
    ParseRenderedClauseAlone(cs[0]);
    assert [cs[0]] == cs;
  }

  lemma ParseRenderedStep(cs: seq<Clause>)
    requires |cs| > 1 && WellFormedClause(cs[0])
    requires ParseClauses(Render(cs[1..])) == Ok(cs[1..])
    ensures ParseClauses(Render(cs)) == Ok(cs)
  {
    assert Render(cs) == RenderClause(cs[0]) + "," + Render(cs[1..]);
    ParseRenderedClauseThen(cs[0], Render(cs[1..]));
    assert [cs[0]] + cs[1..] == cs;
  }

  lemma {:induction false} ParseRenderedClauses(cs: seq<Clause>)
    requires WellFormed(cs)
    ensures ParseClauses(Render(cs)) == Ok(cs)
  {
    if |cs| == 1 {
      ParseRenderedSingle(cs);
    } else {
      WellFormedTail(cs);
      ParseRenderedClauses(cs[1..]);
      ParseRenderedStep(cs);
    }
  }

  lemma RenderSingle(c: Clause)
    ensures Render([c]) == RenderClause(c)
  {
  }

  lemma RenderCons(c: Clause, cs: seq<Clause>)
    requires |cs| >= 1
    ensures Render([c] + cs) == RenderClause(c) + "," + Render(cs)
  {
    assert ([c] + cs)[1..] == cs;
  }

  lemma WellFormedCons(c: Clause, cs: seq<Clause>)
    requires WellFormedClause(c) && WellFormed(cs)
    ensures WellFormed([c] + cs)
  {
    assert forall i | 1 <= i < |cs| + 1 :: ([c] + cs)[i] == cs[i - 1];
  }

  /** How a whole selector whose first clause parses is split into that clause and the rest. */
  lemma ParsedClausesCons(s: string) returns (c: Clause, rest: string)
    requires ParseClauses(s).Ok?
    ensures WellFormedClause(c)
    ensures s == RenderClause(c) + rest
    ensures rest == "" ==> ParseClauses(s).value == [c]
    ensures rest != "" ==> rest[0] == ',' && ParseClauses(rest[1..]).Ok?
    ensures rest != "" ==> ParseClauses(s).value == [c] + ParseClauses(rest[1..]).value
  {
    c := ParseClause(s).value.0;
    rest := ParseClause(s).value.1;
    RenderParsedClause(s);
    ParseClausesStep(s, c, rest);
  }

  /** Rendering a first clause and the clauses after its comma. */
  lemma RenderedClausesJoin(s: string, c: Clause, rest: string, cs: seq<Clause>)
    requires s == RenderClause(c) + rest
    requires rest != "" && rest[0] == ',' && |cs| >= 1 && Render(cs) == rest[1..]
    ensures Render([c] + cs) == s
  {
    RenderCons(c, cs);
    ConcatFirst(RenderClause(c), ',', rest);
  }

  lemma {:induction false} RenderParsedClauses(s: string)
    requires ParseClauses(s).Ok?
    ensures WellFormed(ParseClauses(s).value)
    ensures Render(ParseClauses(s).value) == s
    decreases |s|, 0
  {
    var c, rest := ParsedClausesCons(s);
    if rest == "" {
      RenderSingle(c);
    } else {
      var after := rest[1..];
      var cs := RenderParsedRest(after);
      assert WellFormed([c] + cs) && Render([c] + cs) == s by {
        RenderedClausesJoin(s, c, rest, cs);
        WellFormedCons(c, cs);
      }
    }
  }

  /** The clauses parsed after the first comma, rendered back. */
  lemma {:induction false} RenderParsedRest(s: string) returns (cs: seq<Clause>)
    requires ParseClauses(s).Ok?
    ensures cs == ParseClauses(s).value && WellFormed(cs) && Render(cs) == s
    decreases |s|, 1
  {
    RenderParsedClauses(s);
    cs := ParseClauses(s).value;
  }

  /** A value that starts with a keyword is not `system`. */
  lemma KeyedIsNotSystem(s: string)
    requires MatchKey(s).Some?
    ensures s != "system"
  {
    KeyFirstChar(s, MatchKey(s).value);
  }

  lemma RenderClauseFirstChar(c: Clause)
    ensures |RenderClause(c)| > 0 && RenderClause(c)[0] in {'a', 'p', 'd'}
  {
  }

  lemma RenderFirstChar(cs: seq<Clause>)
    requires |cs| >= 1
    ensures |Render(cs)| > 0 && Render(cs)[0] in {'a', 'p', 'd'}
  {
    RenderClauseFirstChar(cs[0]);
    if |cs| > 1 {
      assert Render(cs) == RenderClause(cs[0]) + ("," + Render(cs[1..]));
    }
  }

  lemma RenderIsNotSystem(cs: seq<Clause>, t: string)
    requires |cs| >= 1
    ensures Render(cs) + t != "system"
  {
    RenderFirstChar(cs);
    assert (Render(cs) + t)[0] == Render(cs)[0];
    assert "system"[0] == 's';
  }

  /** A rendered selector parses to the selection its clauses ask for. */
  lemma ParseRendered(o: Overrides, hostOS: string, cs: seq<Clause>)
    requires WellFormed(cs)
    ensures ParseMultiArchSparse(o, hostOS, Render(cs)) == Ok(Expand(o, hostOS, cs))
  {
    RenderIsNotSystem(cs, "");
    assert Render(cs) + "" == Render(cs);
    ParseRenderedClauses(cs);
  }

  /** Every value the parser accepts is `system` or the rendering of well-formed clauses. */
  lemma AcceptedIsRendered(o: Overrides, hostOS: string, value: string)
    requires ParseMultiArchSparse(o, hostOS, value).Ok?
    ensures value == "system" ||
      exists cs :: WellFormed(cs) && Render(cs) == value &&
        ParseMultiArchSparse(o, hostOS, value).value == Expand(o, hostOS, cs)
  {
    if value != "system" {
      RenderParsedClauses(value);
    }
  }

  /** Helper: well-formed clauses ask for at least one platform or digest. */
  lemma WellFormedSelectsSomething(o: Overrides, hostOS: string, cs: seq<Clause>)
    requires WellFormed(cs)
    ensures |Expand(o, hostOS, cs).platforms| + |Expand(o, hostOS, cs).digests| >= 1
  {
    assert WellFormedClause(cs[0]);
  }

  /** Every accepted value selects at least one platform or one digest: nothing is never the outcome. */
  lemma AcceptedSelectsSomething(o: Overrides, hostOS: string, value: string)
    requires ParseMultiArchSparse(o, hostOS, value).Ok?
    ensures |ParseMultiArchSparse(o, hostOS, value).value.platforms| +
      |ParseMultiArchSparse(o, hostOS, value).value.digests| >= 1
  {
    if value != "system" {
      AcceptedIsRendered(o, hostOS, value);
      var cs :| WellFormed(cs) && Render(cs) == value &&
        ParseMultiArchSparse(o, hostOS, value).value == Expand(o, hostOS, cs);
      WellFormedSelectsSomething(o, hostOS, cs);
    }
  }

  // ---------------------------------------------------------------------------
  // Clause order

  lemma {:induction false} ExpandAppend(o: Overrides, hostOS: string, cs1: seq<Clause>, cs2: seq<Clause>)
    ensures Expand(o, hostOS, cs1 + cs2).platforms ==
      Expand(o, hostOS, cs1).platforms + Expand(o, hostOS, cs2).platforms
    ensures Expand(o, hostOS, cs1 + cs2).digests == Expand(o, hostOS, cs1).digests + Expand(o, hostOS, cs2).digests
  {
    if |cs1| > 0 {
      assert (cs1 + cs2)[1..] == cs1[1..] + cs2;
      ExpandAppend(o, hostOS, cs1[1..], cs2);
    } else {
      assert cs1 + cs2 == cs2;
    }
  }

  lemma {:induction false} RenderAppend(cs1: seq<Clause>, cs2: seq<Clause>)
    requires |cs1| >= 1 && |cs2| >= 1
    ensures Render(cs1 + cs2) == Render(cs1) + "," + Render(cs2)
  {
    if |cs1| > 1 {
      assert (cs1 + cs2)[1..] == cs1[1..] + cs2;
      RenderAppend(cs1[1..], cs2);
    } else {
      assert (cs1 + cs2)[1..] == cs2;
    }
  }

  /**
    Two selectors joined by a comma select the first one's platforms followed
    by the second one's, and likewise for digests: clauses keep their order,
    duplicates included.
  */
  lemma JoinedSelectors(o: Overrides, hostOS: string, cs1: seq<Clause>, cs2: seq<Clause>)
    requires WellFormed(cs1) && WellFormed(cs2)
    ensures ParseMultiArchSparse(o, hostOS, Render(cs1) + "," + Render(cs2)) ==
      Ok(Selection(Expand(o, hostOS, cs1).platforms + Expand(o, hostOS, cs2).platforms,
                   Expand(o, hostOS, cs1).digests + Expand(o, hostOS, cs2).digests))
  {
    RenderAppend(cs1, cs2);
    assert WellFormed(cs1 + cs2) by {
      forall i | 0 <= i < |cs1 + cs2| ensures WellFormedClause((cs1 + cs2)[i]) {
        if i >= |cs1| { assert (cs1 + cs2)[i] == cs2[i - |cs1|]; }
      }
    }
    ParseRendered(o, hostOS, cs1 + cs2);
    ExpandAppend(o, hostOS, cs1, cs2);
  }

  // ---------------------------------------------------------------------------
  // The shapes of the test table

  /** `system` selects one platform made of the overrides alone, and no digest. */
  lemma SystemSelection(o: Overrides, hostOS: string)
    ensures ParseMultiArchSparse(o, hostOS, "system") ==
      Ok(Selection([Platform(o.os, o.arch, o.variant)], []))
  {
  }

  /** The selection one well-formed clause asks for. */
  lemma ExpandSingle(o: Overrides, hostOS: string, c: Clause)
    ensures Expand(o, hostOS, [c]) == Selection(ClausePlatforms(o, hostOS, c), ClauseDigests(c))
  {
    assert [c][1..] == [];
    assert ClausesPlatforms(o, hostOS, [c]) == ClausePlatforms(o, hostOS, c) + [];
    assert ClausesDigests([c]) == ClauseDigests(c) + [];
  }

  lemma KeyPrefixLiterals()
    ensures KeyName(ArchKey) + "=" == "arch="
    ensures KeyName(PlatformKey) + "=" == "platform="
    ensures KeyName(DigestKey) + "=" == "digest="
  {
  }

  /** A selector of one clause selects what that clause asks for. */
  lemma ParseSingleClause(o: Overrides, hostOS: string, c: Clause)
    requires WellFormedClause(c)
    ensures ParseMultiArchSparse(o, hostOS, RenderClause(c)) ==
      Ok(Selection(ClausePlatforms(o, hostOS, c), ClauseDigests(c)))
  {
    RenderSingle(c);
    ParseRendered(o, hostOS, [c]);
    ExpandSingle(o, hostOS, c);
  }

  /**
    `arch=[a1,...,an]` selects n platforms in argument order, architecture ai,
    OS the OS override or else the host OS; the architecture override plays no part.
  */
  lemma ArchListSelection(o: Overrides, hostOS: string, archs: seq<string>)
    requires |archs| >= 1 && forall i | 0 <= i < |archs| :: ListItem(archs[i])
    ensures var r := ParseMultiArchSparse(o, hostOS, "arch=" + ListText(archs));
      && r.Ok?
      && r.value.digests == []
      && |r.value.platforms| == |archs|
      && (forall i | 0 <= i < |archs| :: r.value.platforms[i].architecture == archs[i])
      && (forall i | 0 <= i < |archs| :: r.value.platforms[i].os == (if o.os != "" then o.os else hostOS))
  {
    ParseSingleClause(o, hostOS, ArchClause(archs));
    KeyPrefixLiterals();
  }

  /** `platform=[...]` selects exactly the listed platforms, in order, whatever the overrides. */
  lemma PlatformListSelection(o: Overrides, hostOS: string, ps: seq<Platform>)
    requires |ps| >= 1 && forall i | 0 <= i < |ps| :: ValidPlatform(ps[i])
    ensures ParseMultiArchSparse(o, hostOS, "platform=" + ListText(FormatPlatforms(ps))) ==
      Ok(Selection(ps, []))
  {
    ParseSingleClause(o, hostOS, PlatformClause(ps));
    KeyPrefixLiterals();
  }

  /** `digest=[d1,...,dn]` selects exactly those digests, in order, and no platform. */
  lemma DigestListSelection(o: Overrides, hostOS: string, ds: seq<string>)
    requires |ds| >= 1 && forall i | 0 <= i < |ds| :: ValidDigest(ds[i])
    ensures ParseMultiArchSparse(o, hostOS, "digest=" + ListText(ds)) == Ok(Selection([], ds))
  {
    ParseSingleClause(o, hostOS, DigestClause(ds));
    KeyPrefixLiterals();
  }

  /** The "mixed" case: platform entries, then arch entries, and the digests in their own list. */
  lemma MixedSelection(o: Overrides, hostOS: string, ps: seq<Platform>, archs: seq<string>, ds: seq<string>)
    requires |ps| >= 1 && forall i | 0 <= i < |ps| :: ValidPlatform(ps[i])
    requires |archs| >= 1 && forall i | 0 <= i < |archs| :: ListItem(archs[i])
    requires |ds| >= 1 && forall i | 0 <= i < |ds| :: ValidDigest(ds[i])
    ensures ParseMultiArchSparse(o, hostOS,
        "platform=" + ListText(FormatPlatforms(ps)) + "," + ("arch=" + ListText(archs)) + "," +
        ("digest=" + ListText(ds))) ==
      Ok(Selection(ps + ArchPlatforms(o, hostOS, archs), ds))
  {
    var p, a, d := PlatformClause(ps), ArchClause(archs), DigestClause(ds);
    MixedRender(p, a, d);
    KeyPrefixLiterals();
    ParseRendered(o, hostOS, [p, a, d]);
    MixedExpand(o, hostOS, p, a, d);
    assert ps + ArchPlatforms(o, hostOS, archs) + [] == ps + ArchPlatforms(o, hostOS, archs);
    assert [] + [] + ds == ds;
  }

  lemma MixedRender(p: Clause, a: Clause, d: Clause)
    ensures Render([p, a, d]) == RenderClause(p) + "," + RenderClause(a) + "," + RenderClause(d)
  {
    assert [p, a, d] == [p] + [a, d];
    assert [a, d] == [a] + [d];
    RenderCons(p, [a, d]);
    RenderCons(a, [d]);
    RenderSingle(d);
    ConcatAssoc(RenderClause(p) + ",", RenderClause(a) + ",", RenderClause(d));
  }

  lemma MixedExpand(o: Overrides, hostOS: string, p: Clause, a: Clause, d: Clause)
    ensures Expand(o, hostOS, [p, a, d]) ==
      Selection(ClausePlatforms(o, hostOS, p) + ClausePlatforms(o, hostOS, a) + ClausePlatforms(o, hostOS, d),
                ClauseDigests(p) + ClauseDigests(a) + ClauseDigests(d))
  {
    assert [p, a, d] == [p] + [a] + [d];
    ExpandAppend(o, hostOS, [p] + [a], [d]);
    ExpandAppend(o, hostOS, [p], [a]);
    ExpandSingle(o, hostOS, p);
    ExpandSingle(o, hostOS, a);
    ExpandSingle(o, hostOS, d);
  }

  // ---------------------------------------------------------------------------
  // Errors

  /** A value that is not `system` and starts with no known keyword is an unrecognized value. */
  lemma UnknownKeyRejected(o: Overrides, hostOS: string, value: string)
    requires value != "system"
    requires forall k :: !HasPrefix(value, KeyName(k) + "=")
    ensures ParseMultiArchSparse(o, hostOS, value) == Err(UnrecognizedValue(value))
  {
  }

  /** So is every value that starts with neither `a`, `p`, `d` nor `s`, the empty one included. */
  lemma UnknownFirstCharRejected(o: Overrides, hostOS: string, value: string)
    requires value == "" || value[0] !in {'a', 'p', 'd', 's'}
    ensures ParseMultiArchSparse(o, hostOS, value) == Err(UnrecognizedValue(value))
  {
    forall k ensures !HasPrefix(value, KeyName(k) + "=") {
      if HasPrefix(value, KeyName(k) + "=") {
        KeyFirstChar(value, k);
      }
    }
    assert "system"[0] == 's';
    UnknownKeyRejected(o, hostOS, value);
  }

  /** The empty value, one comma, two commas and unknown keywords all fail as unrecognized values. */
  lemma TableUnrecognizedValues(o: Overrides, hostOS: string)
    ensures ParseMultiArchSparse(o, hostOS, "") == Err(UnrecognizedValue(""))
    ensures ParseMultiArchSparse(o, hostOS, ",") == Err(UnrecognizedValue(","))
    ensures ParseMultiArchSparse(o, hostOS, ",,") == Err(UnrecognizedValue(",,"))
    ensures ParseMultiArchSparse(o, hostOS, "vegetables=artichokes") ==
      Err(UnrecognizedValue("vegetables=artichokes"))
    ensures ParseMultiArchSparse(o, hostOS, "vegetables=[artichokes]") ==
      Err(UnrecognizedValue("vegetables=[artichokes]"))
    ensures var v := "brassica=" + "[arugula,broccoli,cauliflower,daikon]";
      ParseMultiArchSparse(o, hostOS, v) == Err(UnrecognizedValue(v))
  {
    UnknownFirstCharRejected(o, hostOS, "");
    UnknownFirstCharRejected(o, hostOS, ",");
    UnknownFirstCharRejected(o, hostOS, ",,");
    UnknownFirstCharRejected(o, hostOS, "vegetables=artichokes");
    UnknownFirstCharRejected(o, hostOS, "vegetables=[artichokes]");
    UnknownFirstCharRejected(o, hostOS, "brassica=" + "[arugula,broccoli,cauliflower,daikon]");
  }

  /** Helper: a value that starts with a keyword goes to the clause parser, not to `system`. */
  lemma KeyedValue(o: Overrides, hostOS: string, k: Key, body: string)
    ensures ParseMultiArchSparse(o, hostOS, KeyName(k) + "=" + body) ==
      match ParseClauses(KeyName(k) + "=" + body)
      case Err(e) => Err(e)
      case Ok(cs) => Ok(Expand(o, hostOS, cs))
  {
    MatchKeyOf(k, body);
    KeyedIsNotSystem(KeyName(k) + "=" + body);
  }

  /** A keyword whose list does not start with `[` is an unrecognized value. */
  lemma MissingOpenerRejected(o: Overrides, hostOS: string, k: Key, rest: string)
    requires rest == "" || rest[0] != '['
    ensures ParseMultiArchSparse(o, hostOS, KeyName(k) + "=" + rest) ==
      Err(UnrecognizedValue(KeyName(k) + "=" + rest))
  {
    ParseClauseOfKey(k, rest);
    KeyedValue(o, hostOS, k, rest);
  }

  /** A list that is opened but never closed reports "] not found". */
  lemma MissingCloserRejected(o: Overrides, hostOS: string, k: Key, rest: string)
    requires ']' !in rest
    ensures ParseMultiArchSparse(o, hostOS, KeyName(k) + "=" + ("[" + rest)) ==
      Err(ListNotTerminated(KeyName(k) + "=" + ("[" + rest)))
  {
    assert ']' !in "[" + rest;
    ParseClauseOfKey(k, "[" + rest);
    KeyedValue(o, hostOS, k, "[" + rest);
  }

  /** Text after a clause's `]` that is not a comma is an unrecognized value. */
  lemma TrailingTextRejected(o: Overrides, hostOS: string, c: Clause, t: string)
    requires WellFormedClause(c)
    requires t != "" && t[0] != ','
    ensures ParseMultiArchSparse(o, hostOS, RenderClause(c) + t) == Err(UnrecognizedValue(t))
  {
    ParseRenderedClause(c, t);
    RenderClauseStartsWithKey(c, t);
    KeyedIsNotSystem(RenderClause(c) + t);
  }

  /** A comma after the last clause leaves an empty clause, which is an unrecognized value. */
  lemma TrailingCommaRejected(o: Overrides, hostOS: string, cs: seq<Clause>)
    requires WellFormed(cs)
    ensures ParseMultiArchSparse(o, hostOS, Render(cs) + ",") == Err(UnrecognizedValue(""))
  {
    assert ParseClauses("") == Err(UnrecognizedValue(""));
    LaterErrorWins(o, hostOS, cs, "");
    assert Render(cs) + "," + "" == Render(cs) + ",";
  }

  /**
    No partial result: however many well-formed clauses come first, an error in
    what follows is the outcome of the whole parse.
  */
  lemma LaterErrorWins(o: Overrides, hostOS: string, cs: seq<Clause>, t: string)
    requires WellFormed(cs)
    requires ParseClauses(t).Err?
    ensures ParseMultiArchSparse(o, hostOS, Render(cs) + "," + t) == Err(ParseClauses(t).error)
  {
    LaterErrorWinsClauses(cs, t);
    RenderIsNotSystem(cs, "," + t);
    assert Render(cs) + "," + t == Render(cs) + ("," + t);
  }

  lemma {:induction false} LaterErrorWinsClauses(cs: seq<Clause>, t: string)
    requires WellFormed(cs)
    requires ParseClauses(t).Err?
    ensures ParseClauses(Render(cs) + "," + t) == ParseClauses(t)
  {
    if |cs| == 1 {
      assert Render(cs) == RenderClause(cs[0]);
      ParseRenderedClauseThen(cs[0], t);
    } else {
      var tail := Render(cs[1..]) + "," + t;
      assert Render(cs) + "," + t == RenderClause(cs[0]) + "," + tail;
      WellFormedTail(cs);
      ParseRenderedClauseThen(cs[0], tail);
      LaterErrorWinsClauses(cs[1..], t);
    }
  }

  /** A list item that is not accepted is reported as the whole clause, or as the entry itself. */
  lemma BuildClauseErrorFragment(k: Key, inner: string, text: string)
    requires BuildClause(k, Split(inner, ','), text).Err?
    ensures var f := BuildClause(k, Split(inner, ','), text).error.fragment;
      f == text || Contains(inner, f)
  {
    var items := Split(inner, ',');
    if k == DigestKey {
      var d := FirstInvalidDigest(items).value;
      FirstInvalidDigestSpec(items);
      var i :| 0 <= i < |items| && items[i] == d;
      JoinSplit(inner, ',');
      JoinContainsPiece(items, ',', i);
    }
  }

  /** The slices of a clause that an error can name. */
  lemma ClauseSlices(k: Key, body: string, j: nat) returns (s: string, start: nat)
    requires 0 < j < |body|
    ensures s == KeyName(k) + "=" + body && start == |KeyName(k)| + 1
    ensures KeyName(k) + "=" + body[..j + 1] == s[..start + j + 1]
    ensures body[1..j] == s[start + 1..start + j]
  {
    s := KeyName(k) + "=" + body;
    start := |KeyName(k)| + 1;
    assert s[start..] == body;
  }

  /** How a list that is opened and closed is parsed. */
  lemma ParseListClosed(k: Key, body: string, j: nat)
    requires body != "" && body[0] == '[' && IndexOf(body, ']') == Some(j)
    ensures ParseList(k, body) ==
      Attach(BuildClause(k, Split(body[1..j], ','), KeyName(k) + "=" + body[..j + 1]), body[j + 1..])
  {
  }

  /** The error of a list without `[` or without `]` names the whole clause. */
  lemma ParseListUnclosed(k: Key, body: string)
    requires body == "" || body[0] != '[' || IndexOf(body, ']').None?
    ensures ParseList(k, body).Err? && ParseList(k, body).error.fragment == KeyName(k) + "=" + body
  {
  }

  /** A fragment of the clause text or of the list inside it is a fragment of the input. */
  lemma FragmentOfClause(s: string, text: string, inner: string, f: string, start: nat, j: nat)
    requires 0 < j && start + j + 1 <= |s|
    requires text == s[..start + j + 1] && inner == s[start + 1..start + j]
    requires f == text || Contains(inner, f)
    ensures Contains(s, f)
  {
    if f == text {
      ContainsSlice(s, 0, start + j + 1);
      assert s[0..start + j + 1] == text;
    } else {
      ContainsSlice(s, start + 1, start + j);
      ContainsTransitive(f, inner, s);
    }
  }

  lemma ClosedListErrorFragment(k: Key, body: string, j: nat)
    requires body != "" && body[0] == '[' && IndexOf(body, ']') == Some(j)
    requires ParseList(k, body).Err?
    ensures Contains(KeyName(k) + "=" + body, ParseList(k, body).error.fragment)
  {
    ParseListClosed(k, body, j);
    var s, start := ClauseSlices(k, body, j);
    BuildClauseErrorFragment(k, body[1..j], KeyName(k) + "=" + body[..j + 1]);
    FragmentOfClause(s, KeyName(k) + "=" + body[..j + 1], body[1..j], ParseList(k, body).error.fragment, start, j);
  }

  lemma ListErrorFragment(k: Key, body: string)
    requires ParseList(k, body).Err?
    ensures Contains(KeyName(k) + "=" + body, ParseList(k, body).error.fragment)
  {
    if body != "" && body[0] == '[' && IndexOf(body, ']').Some? {
      ClosedListErrorFragment(k, body, IndexOf(body, ']').value);
    } else {
      ParseListUnclosed(k, body);
      ContainsItself(KeyName(k) + "=" + body);
    }
  }

  /** Every error names a fragment of the input itself. */
  lemma ClauseErrorFragment(s: string)
    requires ParseClause(s).Err?
    ensures Contains(s, ParseClause(s).error.fragment)
  {
    ContainsItself(s);
    if MatchKey(s).Some? {
      var k := MatchKey(s).value;
      var body := s[|KeyName(k)| + 1..];
      assert s == KeyName(k) + "=" + body;
      ParseClauseOfKey(k, body);
      ListErrorFragment(k, body);
    }
  }

  /** A selector that fails after its first clause fails at the text after it, or further on. */
  lemma ParseClausesErrStep(s: string, c: Clause, rest: string)
    requires ParseClause(s) == Ok((c, rest)) && ParseClauses(s).Err?
    ensures rest != ""
    ensures rest[0] != ',' ==> ParseClauses(s).error == UnrecognizedValue(rest)
    ensures rest[0] == ',' ==> ParseClauses(s) == ParseClauses(rest[1..])
  {
  }

  lemma {:induction false} ClausesErrorFragment(s: string)
    requires ParseClauses(s).Err?
    ensures Contains(s, ParseClauses(s).error.fragment)
    decreases |s|
  {
    if ParseClause(s).Err? {
      ClauseErrorFragment(s);
    } else {
      var rest := ParseClause(s).value.1;
      ParseClausesErrStep(s, ParseClause(s).value.0, rest);
      if rest[0] == ',' {
        ClausesErrorFragment(rest[1..]);
        SuffixTailContains(s, rest, ParseClauses(s).error.fragment);
      } else {
        SuffixContains(s, rest);
      }
    }
  }

  /** The fragment an error reports is part of the value given to the parser. */
  lemma ErrorFragmentInInput(o: Overrides, hostOS: string, value: string)
    requires ParseMultiArchSparse(o, hostOS, value).Err?
    ensures Contains(value, ParseMultiArchSparse(o, hostOS, value).error.fragment)
  {
    ClausesErrorFragment(value);
  }

  lemma UnrecognizedMessage(f: string)
    ensures Contains(Message(UnrecognizedValue(f)), f)
    ensures Contains(Message(UnrecognizedValue(f)), "unrecognized value")
  {
    var m := Message(UnrecognizedValue(f));
    OccursInConcat("unrecognized value \"", f, "\"");
    assert m == "" + "unrecognized value" + (" \"" + f + "\"");
    OccursInConcat("", "unrecognized value", " \"" + f + "\"");
  }

  lemma NotTerminatedMessage(f: string)
    ensures Contains(Message(ListNotTerminated(f)), f)
    ensures Contains(Message(ListNotTerminated(f)), "] not found")
  {
    var m := Message(ListNotTerminated(f));
    OccursInConcat("list in \"", f, "\": ] not found");
    assert m == "list in \"" + f + "\": " + "] not found" + "";
    OccursInConcat("list in \"" + f + "\": ", "] not found", "");
  }

  /**
    Error messages name the fragment and say which kind of error it is:
    "unrecognized value", or "] not found" for a list without its end.
  */
  lemma MessageContents(e: ParseError)
    ensures Contains(Message(e), e.fragment)
    ensures e.UnrecognizedValue? ==> Contains(Message(e), "unrecognized value")
    ensures e.ListNotTerminated? ==> Contains(Message(e), "] not found")
  {
    match e
    case UnrecognizedValue(f) => UnrecognizedMessage(f);
    case ListNotTerminated(f) => NotTerminatedMessage(f);
    case InvalidDigest(f) => OccursInConcat("invalid digest \"", f, "\"");
  }
}
