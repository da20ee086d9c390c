/**
  Shell completion of image references: the list of transports a user may
  type (`supportedTransportSuggestions`) and the completion of a partly typed
  `transport:details` argument (`autocompleteImageNames`).

  The list of registered transports comes from the image library
  (`transports.ListNames()`); here it is a parameter, `names`.
*/
module Completions {
  import opened Strings

  const OciArchive := "oci-archive"
  const DockerArchive := "docker-archive"
  const Sif := "sif"
  const Oci := "oci"
  const Dir := "dir"
  const Docker := "docker"
  const Tarball := "tarball"

  /**
    cobra's shell-completion directives. A directive value is a bit set of
    these; `ShellCompDirectiveDefault` is the value 0, the empty set.
  */
  datatype Directive = Error | NoSpace | NoFileComp | FilterFileExt | FilterDirs | KeepOrder

  const Default: set<Directive> := {}

  /** The completions offered and the directives the shell is given with them. */
  datatype Completion = Completion(candidates: seq<string>, directives: set<Directive>)

  /** The transports offered on the command line: every name except tarball, with ':' appended, in order. */
  function Suggestions(names: seq<string>): (r: seq<string>)
    ensures |r| <= |names|
    ensures forall i | 0 <= i < |r| :: |r[i]| >= 1 && r[i][|r[i]| - 1] == ':'
  {
    if |names| == 0 then []
    else
      var last := names[|names| - 1];
      Suggestions(names[..|names| - 1]) + (if last != Tarball then [last + ":"] else [])
  }

  /** supportedTransportSuggestions: one pass over the names, appending each offered one. */
  method SupportedTransportSuggestions(names: seq<string>) returns (suggestions: seq<string>)
    ensures suggestions == Suggestions(names)
  {
    suggestions := [];
    for i := 0 to |names|
      invariant suggestions == Suggestions(names[..i])
    {
      assert names[..i + 1][..i] == names[..i];
      if names[i] != Tarball {
        suggestions := suggestions + [names[i] + ":"];
      }
    }
    assert names[..|names|] == names;
  }

  /** The completion of `toComplete` once it has been cut into a transport name and the details after it. */
  function CompleteTransport(transport: string, details: string): (r: Completion)
    ensures r.candidates != [] ==> transport == Docker && details == "" && r.candidates == [Docker + "://"]
    ensures NoFileComp in r.directives <==> transport !in {OciArchive, DockerArchive, Sif, Oci, Dir}
  {
    if transport == OciArchive || transport == DockerArchive then Completion([], {NoSpace})
    else if transport == Sif then Completion([], Default)
    else if transport == Oci then Completion([], Default + {NoSpace})
    else if transport == Dir then Completion([], Default)
    else if transport == Docker && details == "" then Completion([transport + "://"], {NoSpace, NoFileComp})
    else Completion([], {NoSpace, NoFileComp})
  }

  /** autocompleteImageNames: cut at the first ':' and dispatch on the transport name. */
  function AutocompleteImageNames(names: seq<string>, toComplete: string): (r: Completion)
    ensures ':' !in toComplete ==> r.candidates == Suggestions(names)
    ensures r.candidates != [] ==> NoSpace in r.directives && NoFileComp in r.directives
  {
    var (transport, details, haveTransport) := Cut(toComplete, ':');
    if !haveTransport then Completion(Suggestions(names), {NoSpace, NoFileComp})
    else CompleteTransport(transport, details)
  }

  // Properties of the suggestion list

  /** Suggesting for two lists one after the other is suggesting for their concatenation: the order is kept. */
  lemma {:induction false} SuggestionsAppend(a: seq<string>, b: seq<string>)
    ensures Suggestions(a + b) == Suggestions(a) + Suggestions(b)
    decreases |b|
  {
    if |b| > 0 {
      var b' := b[..|b| - 1];
      assert (a + b)[..|a + b| - 1] == a + b';
      assert (a + b)[|a + b| - 1] == b[|b| - 1];
      SuggestionsAppend(a, b');
    } else {
      assert a + b == a;
    }
  }

  /** A name followed by ':' determines the name. */
  lemma ColonSuffixInjective(m: string, n: string)
    requires m + ":" == n + ":"
    ensures m == n
  {
    assert m == (m + ":")[..|m|];
    assert n == (n + ":")[..|n|];
  }

  /** A string is suggested exactly when it is some name other than tarball with ':' appended. */
  lemma {:induction false} SuggestionsMembership(names: seq<string>, x: string)
    ensures x in Suggestions(names) <==>
      exists i | 0 <= i < |names| :: names[i] != Tarball && x == names[i] + ":"
    decreases |names|
  {
    if |names| > 0 {
      var init := names[..|names| - 1];
      SuggestionsMembership(init, x);
      assert forall i | 0 <= i < |init| :: init[i] == names[i];
    }
  }

  /** tarball is never offered, and every other name is. */
  lemma TarballNeverSuggested(names: seq<string>)
    ensures Tarball + ":" !in Suggestions(names)
    ensures forall i | 0 <= i < |names| && names[i] != Tarball :: names[i] + ":" in Suggestions(names)
  {
    SuggestionsMembership(names, Tarball + ":");
    forall i | 0 <= i < |names| && names[i] + ":" == Tarball + ":"
      ensures names[i] == Tarball
    {
      ColonSuffixInjective(names[i], Tarball);
    }
    forall i | 0 <= i < |names| && names[i] != Tarball
      ensures names[i] + ":" in Suggestions(names)
    {
      SuggestionsMembership(names, names[i] + ":");
    }
  }

  /** One suggestion per name other than tarball. */
  lemma {:induction false} SuggestionsLength(names: seq<string>)
    ensures |Suggestions(names)| == |names| - multiset(names)[Tarball]
    decreases |names|
  {
    if |names| > 0 {
      var init := names[..|names| - 1];
      SuggestionsLength(init);
      assert names == init + [names[|names| - 1]];
      assert multiset(names) == multiset(init) + multiset{names[|names| - 1]};
    }
  }

  // Properties of the completion of an image reference

  /** With no ':' typed yet, the transports are offered, with no space and no file completion after them. */
  lemma NoTransportTyped(names: seq<string>, toComplete: string)
    requires ':' !in toComplete
    ensures AutocompleteImageNames(names, toComplete) == Completion(Suggestions(names), {NoSpace, NoFileComp})
  {
  }

  /** The argument is cut at its first ':' only: further colons belong to the details. */
  lemma CutAtFirstColon(names: seq<string>, transport: string, details: string)
    requires ':' !in transport
    ensures AutocompleteImageNames(names, transport + ":" + details) == CompleteTransport(transport, details)
  {
    CutAfter(transport, ':', details);
  }

  /** oci-archive: and docker-archive: complete nothing and ask for no space. */
  lemma ArchiveTransports(names: seq<string>, details: string)
    ensures AutocompleteImageNames(names, OciArchive + ":" + details) == Completion([], {NoSpace})
    ensures AutocompleteImageNames(names, DockerArchive + ":" + details) == Completion([], {NoSpace})
  {
    CutAtFirstColon(names, OciArchive, details);
    CutAtFirstColon(names, DockerArchive, details);
  }

  /** sif: and dir: leave the shell's default (file) completion in place; oci: does too, with no space. */
  lemma PathTransports(names: seq<string>, details: string)
    ensures AutocompleteImageNames(names, Sif + ":" + details) == Completion([], Default)
    ensures AutocompleteImageNames(names, Dir + ":" + details) == Completion([], Default)
    ensures AutocompleteImageNames(names, Oci + ":" + details) == Completion([], {NoSpace})
  {
    CutAtFirstColon(names, Sif, details);
    CutAtFirstColon(names, Dir, details);
    CutAtFirstColon(names, Oci, details);
  }

  /** docker: alone completes to docker://. */
  lemma DockerAlone(names: seq<string>)
    ensures AutocompleteImageNames(names, Docker + ":") == Completion([Docker + "://"], {NoSpace, NoFileComp})
  {
    assert Docker + ":" + "" == Docker + ":";
    CutAtFirstColon(names, Docker, "");
  }

  /** docker: with anything after the colon completes nothing. */
  lemma DockerWithDetails(names: seq<string>, details: string)
    requires details != ""
    ensures AutocompleteImageNames(names, Docker + ":" + details) == Completion([], {NoSpace, NoFileComp})
  {
    CutAtFirstColon(names, Docker, details);
  }

  /** Any other transport name, tarball included, completes nothing and suppresses file completion. */
  lemma UnknownTransport(names: seq<string>, transport: string, details: string)
    requires ':' !in transport
    requires transport !in {OciArchive, DockerArchive, Sif, Oci, Dir, Docker}
    ensures AutocompleteImageNames(names, transport + ":" + details) == Completion([], {NoSpace, NoFileComp})
  {
    CutAtFirstColon(names, transport, details);
  }

  /** The shell completes file names exactly after the transports whose references are paths. */
  lemma FileCompletionAfterPathTransports(names: seq<string>, toComplete: string)
    ensures NoFileComp !in AutocompleteImageNames(names, toComplete).directives <==>
      ':' in toComplete && Cut(toComplete, ':').0 in {OciArchive, DockerArchive, Sif, Oci, Dir}
  {
  }

  /** After a ':' the only candidate ever offered is docker://, and only for the argument "docker:". */
  lemma CandidatesAfterTransport(names: seq<string>, toComplete: string)
    requires ':' in toComplete
    ensures AutocompleteImageNames(names, toComplete).candidates ==
      (if toComplete == Docker + ":" then [Docker + "://"] else [])
  {
    if toComplete == Docker + ":" {
      DockerAlone(names);
    }
  }
}
