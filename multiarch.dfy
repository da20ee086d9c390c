/**
  The `--multi-arch` selector of `skopeo copy` (parseMultiArchSparse).

  The value is either the single word `system`, or one or more clauses
  separated by commas, each `arch=[...]`, `platform=[...]` or `digest=[...]`
  holding a comma-separated list. The parser returns the platforms to copy
  (from `platform=` and `arch=` clauses, in the order the clauses appear) and
  the digests to copy (from `digest=` clauses), or one error and nothing else.

  The parser is written as plain functions over strings; `Render` is its
  inverse on well-formed clause lists, and the lemmas at the end tie the two
  together and state the outcomes the command's test table fixes.
*/
module MultiArch {
  import opened Wrappers
  import opened Strings

  /** The fields of an OCI image-spec platform that the selector sets. */
  datatype Platform = Platform(os: string, architecture: string, variant: string)

  /** The global `--override-os`, `--override-arch`, `--override-variant` options ("" when unset). */
  datatype Overrides = Overrides(os: string, arch: string, variant: string)

  datatype Key = ArchKey | PlatformKey | DigestKey

  /** One parsed clause of the selector. */
  datatype Clause =
    | ArchClause(archs: seq<string>)
    | PlatformClause(platforms: seq<Platform>)
    | DigestClause(digests: seq<string>)

  /** The error kinds, each carrying the part of the input it complains about. */
  datatype ParseError =
    | UnrecognizedValue(fragment: string)
    | ListNotTerminated(fragment: string)
    | InvalidDigest(fragment: string)

  datatype Result<T> = Ok(value: T) | Err(error: ParseError)

  /** What the copy command is asked to copy: these platforms and these digests. */
  datatype Selection = Selection(platforms: seq<Platform>, digests: seq<string>)

  /** The text of an error as the user sees it. */
  function Message(e: ParseError): string {
    match e
    case UnrecognizedValue(f) => "unrecognized value \"" + f + "\""
    case ListNotTerminated(f) => "list in \"" + f + "\": ] not found"
    case InvalidDigest(f) => "invalid digest \"" + f + "\""
  }

  function KeyName(k: Key): string {
    match k
    case ArchKey => "arch"
    case PlatformKey => "platform"
    case DigestKey => "digest"
  }

  /** The clause keyword `s` starts with, `=` included. */
  function MatchKey(s: string): (r: Option<Key>)
    ensures r.Some? ==> HasPrefix(s, KeyName(r.value) + "=")
    ensures r.None? ==> forall k :: !HasPrefix(s, KeyName(k) + "=")
  {
    if HasPrefix(s, "arch=") then Some(ArchKey)
    else if HasPrefix(s, "platform=") then Some(PlatformKey)
    else if HasPrefix(s, "digest=") then Some(DigestKey)
    else None
  }

  // ---------------------------------------------------------------------------
  // Digests

  /** The length of the hex part go-digest requires for each algorithm it knows. */
  function EncodedLength(algorithm: string): Option<nat> {
    if algorithm == "sha256" then Some(64)
    else if algorithm == "sha384" then Some(96)
    else if algorithm == "sha512" then Some(128)
    else None
  }

  predicate IsLowerHex(c: char) {
    '0' <= c <= '9' || 'a' <= c <= 'f'
  }

  /** go-digest's well-formedness rule: `algorithm:hex`, with the hex length the algorithm fixes. */
  predicate ValidDigest(d: string) {
    match IndexOf(d, ':')
    case None => false
    case Some(i) =>
      match EncodedLength(d[..i])
      case None => false
      case Some(n) => |d| == i + 1 + n && forall k | i < k < |d| :: IsLowerHex(d[k])
  }

  /** The first entry that is not a well-formed digest, if any. */
  function FirstInvalidDigest(ds: seq<string>): Option<string> {
    if |ds| == 0 then None
    else if !ValidDigest(ds[0]) then Some(ds[0])
    else FirstInvalidDigest(ds[1..])
  }

  /** No entry is reported exactly when all are well-formed; one reported is a malformed entry. */
  lemma {:induction false} FirstInvalidDigestSpec(ds: seq<string>)
    ensures FirstInvalidDigest(ds).None? <==> forall i | 0 <= i < |ds| :: ValidDigest(ds[i])
    ensures FirstInvalidDigest(ds).Some? ==>
      exists i | 0 <= i < |ds| :: ds[i] == FirstInvalidDigest(ds).value && !ValidDigest(ds[i])
  {
    if |ds| > 0 && ValidDigest(ds[0]) {
      FirstInvalidDigestSpec(ds[1..]);
      assert forall i | 1 <= i < |ds| :: ds[i] == ds[1..][i - 1];
      if FirstInvalidDigest(ds).Some? {
        var i :| 0 <= i < |ds[1..]| && ds[1..][i] == FirstInvalidDigest(ds).value && !ValidDigest(ds[1..][i]);
        assert ds[i + 1] == ds[1..][i];
      }
    } else if |ds| > 0 {
      assert ds[0] == FirstInvalidDigest(ds).value;
    }
  }

  // ---------------------------------------------------------------------------
  // List items and platforms

  /** An item that a list can hold and give back unchanged. */
  predicate ListItem(x: string) {
    x != "" && ',' !in x && ']' !in x
  }

  predicate PlatformField(x: string) {
    ListItem(x) && '/' !in x
  }

  predicate ValidPlatform(p: Platform) {
    PlatformField(p.os) && PlatformField(p.architecture) && (p.variant == "" || PlatformField(p.variant))
  }

  /** The `os/arch` or `os/arch/variant` spelling of a platform. */
  function FormatPlatform(p: Platform): string {
    if p.variant == "" then Join([p.os, p.architecture], '/')
    else Join([p.os, p.architecture, p.variant], '/')
  }

  function FormatPlatforms(ps: seq<Platform>): (r: seq<string>)
    ensures |r| == |ps|
  {
    seq(|ps|, i requires 0 <= i < |ps| => FormatPlatform(ps[i]))
  }

  /** One `platform=` entry: two or three non-empty `/`-separated parts, taken verbatim. */
  function ParsePlatform(item: string): (r: Option<Platform>)
    ensures r.Some? ==> r.value.os != "" && r.value.architecture != ""
    ensures r.Some? ==> '/' !in r.value.os && '/' !in r.value.architecture && '/' !in r.value.variant
  {
    var parts := Split(item, '/');
    if |parts| == 2 && parts[0] != "" && parts[1] != "" then
      Some(Platform(parts[0], parts[1], ""))
    else if |parts| == 3 && parts[0] != "" && parts[1] != "" && parts[2] != "" then
      Some(Platform(parts[0], parts[1], parts[2]))
    else
      None
  }

  /** All `platform=` entries, or nothing if one of them is malformed. */
  function ParsePlatforms(items: seq<string>): Option<seq<Platform>> {
    if |items| == 0 then Some([])
    else match ParsePlatform(items[0])
      case None => None
      case Some(p) =>
        match ParsePlatforms(items[1..])
        case None => None
        case Some(ps) => Some([p] + ps)
  }

  /** All entries are parsed, one platform each in order, or one of them fails to parse. */
  lemma {:induction false} ParsePlatformsSpec(items: seq<string>)
    ensures ParsePlatforms(items).Some? ==> |ParsePlatforms(items).value| == |items|
    ensures ParsePlatforms(items).Some? ==>
      forall i | 0 <= i < |items| :: ParsePlatform(items[i]) == Some(ParsePlatforms(items).value[i])
    ensures ParsePlatforms(items).None? <==> exists i | 0 <= i < |items| :: ParsePlatform(items[i]).None?
  {
    if |items| > 0 {
      ParsePlatformsSpec(items[1..]);
      assert forall i | 1 <= i < |items| :: items[i] == items[1..][i - 1];
      if ParsePlatform(items[0]).Some? && ParsePlatforms(items[1..]).None? {
        var i :| 0 <= i < |items[1..]| && ParsePlatform(items[1..][i]).None?;
        assert ParsePlatform(items[i + 1]).None?;
      }
    }
  }

  // ---------------------------------------------------------------------------
  // The parser

  /** The clause a keyword builds from its list items; `text` is the whole clause, for errors. */
  function BuildClause(k: Key, items: seq<string>, text: string): Result<Clause> {
    match k
    case ArchKey =>
      if forall i | 0 <= i < |items| :: items[i] != "" then Ok(ArchClause(items))
      else Err(UnrecognizedValue(text))
    case PlatformKey =>
      (match ParsePlatforms(items)
       case Some(ps) => Ok(PlatformClause(ps))
       case None => Err(UnrecognizedValue(text)))
    case DigestKey =>
      match FirstInvalidDigest(items)
      case Some(d) => Err(InvalidDigest(d))
      case None => Ok(DigestClause(items))
  }

  /** The clause built, followed by the text after it. */
  function Attach(b: Result<Clause>, rest: string): Result<(Clause, string)> {
    match b
    case Err(e) => Err(e)
    case Ok(c) => Ok((c, rest))
  }

  /**
    The clause at the start of `s` and the text after its closing `]`. The
    list runs from the `[` right after `key=` to the first `]`.
  */
  function ParseClause(s: string): (r: Result<(Clause, string)>)
    ensures r.Ok? ==> |r.value.1| < |s| && r.value.1 == s[|s| - |r.value.1|..]
  {
    match MatchKey(s)
    case None => Err(UnrecognizedValue(s))
    case Some(k) =>
      var body := s[|KeyName(k)| + 1..];
      assert s == (KeyName(k) + "=") + body;
      ParseList(k, body)
  }

  /** The list that follows `key=`, and what comes after it. */
  function ParseList(k: Key, body: string): (r: Result<(Clause, string)>)
    ensures r.Ok? ==> |r.value.1| < |body| && r.value.1 == body[|body| - |r.value.1|..]
  {
    var s := KeyName(k) + "=" + body;
    if body == "" || body[0] != '[' then Err(UnrecognizedValue(s))
    else match IndexOf(body, ']')
      case None => Err(ListNotTerminated(s))
      case Some(j) =>
        Attach(BuildClause(k, Split(body[1..j], ','), KeyName(k) + "=" + body[..j + 1]), body[j + 1..])
  }

  /** The clause parsed first, followed by those parsed after it. */
  function Prepend(c: Clause, r: Result<seq<Clause>>): Result<seq<Clause>> {
    match r
    case Err(e) => Err(e)
    case Ok(cs) => Ok([c] + cs)
  }

  /** Comma-separated clauses up to the end of `s`. */
  function ParseClauses(s: string): (r: Result<seq<Clause>>)
    ensures r.Ok? ==> |r.value| >= 1
    decreases |s|
  {
    match ParseClause(s)
    case Err(e) => Err(e)
    case Ok((c, rest)) =>
      if rest == "" then Ok([c])
      else if rest[0] != ',' then Err(UnrecognizedValue(rest))
      else Prepend(c, ParseClauses(rest[1..]))
  }

  /** The platform `system` stands for: the overrides as they are, "" where unset. */
  function SystemPlatform(o: Overrides): Platform {
    Platform(o.os, o.arch, o.variant)
  }

  /** The platform an `arch=` entry stands for: the OS override, else the host OS. */
  function ArchPlatform(o: Overrides, hostOS: string, arch: string): Platform {
    Platform(if o.os != "" then o.os else hostOS, arch, o.variant)
  }

  function ArchPlatforms(o: Overrides, hostOS: string, archs: seq<string>): (r: seq<Platform>)
    ensures |r| == |archs|
  {
    seq(|archs|, i requires 0 <= i < |archs| => ArchPlatform(o, hostOS, archs[i]))
  }

  function ClausePlatforms(o: Overrides, hostOS: string, c: Clause): seq<Platform> {
    match c
    case ArchClause(archs) => ArchPlatforms(o, hostOS, archs)
    case PlatformClause(ps) => ps
    case DigestClause(_) => []
  }

  function ClauseDigests(c: Clause): seq<string> {
    match c
    case DigestClause(ds) => ds
    case _ => []
  }

  function ClausesPlatforms(o: Overrides, hostOS: string, cs: seq<Clause>): seq<Platform> {
    if |cs| == 0 then [] else ClausePlatforms(o, hostOS, cs[0]) + ClausesPlatforms(o, hostOS, cs[1..])
  }

  function ClausesDigests(cs: seq<Clause>): seq<string> {
    if |cs| == 0 then [] else ClauseDigests(cs[0]) + ClausesDigests(cs[1..])
  }

  /** The selection a list of clauses asks for. */
  function Expand(o: Overrides, hostOS: string, cs: seq<Clause>): Selection {
    Selection(ClausesPlatforms(o, hostOS, cs), ClausesDigests(cs))
  }

  /**
    parseMultiArchSparse. `hostOS` is the operating system the program runs
    on (Go's runtime.GOOS), which `arch=` entries fall back to.
  */
  function ParseMultiArchSparse(o: Overrides, hostOS: string, value: string): (r: Result<Selection>)
    ensures r.Ok? ==> value == "system" || MatchKey(value).Some?
    ensures value == "system" ==> r.Ok?
  {
    if value == "system" then Ok(Selection([SystemPlatform(o)], []))
    else match ParseClauses(value)
      case Err(e) => Err(e)
      case Ok(cs) => Ok(Expand(o, hostOS, cs))
  }

  // ---------------------------------------------------------------------------
  // Rendering: the inverse of the parser

  function ClauseKey(c: Clause): Key {
    match c
    case ArchClause(_) => ArchKey
    case PlatformClause(_) => PlatformKey
    case DigestClause(_) => DigestKey
  }

  function ItemTexts(c: Clause): seq<string> {
    match c
    case ArchClause(archs) => archs
    case PlatformClause(ps) => FormatPlatforms(ps)
    case DigestClause(ds) => ds
  }

  /** A list as the selector spells it: `[item,item,...]`. */
  function ListText(items: seq<string>): string {
    "[" + Join(items, ',') + "]"
  }

  function RenderClause(c: Clause): string {
    KeyName(ClauseKey(c)) + "=" + ListText(ItemTexts(c))
  }

  function Render(cs: seq<Clause>): string {
    if |cs| == 0 then ""
    else if |cs| == 1 then RenderClause(cs[0])
    else RenderClause(cs[0]) + "," + Render(cs[1..])
  }

  predicate WellFormedClause(c: Clause) {
    match c
    case ArchClause(archs) => |archs| >= 1 && forall i | 0 <= i < |archs| :: ListItem(archs[i])
    case PlatformClause(ps) => |ps| >= 1 && forall i | 0 <= i < |ps| :: ValidPlatform(ps[i])
    case DigestClause(ds) => |ds| >= 1 && forall i | 0 <= i < |ds| :: ValidDigest(ds[i])
  }

  predicate WellFormed(cs: seq<Clause>) {
    |cs| >= 1 && forall i | 0 <= i < |cs| :: WellFormedClause(cs[i])
  }
}
