# A verified model of skopeo's sequential core

skopeo copies, inspects and syncs container images between transports (registries, OCI layouts, archives, directories).
Most of its command-line code is wiring around the image library.
This project models the four pieces of it that are real sequential logic.

- **The `--multi-arch` selector of `skopeo copy`** (`parseMultiArchSparse`), in `multiarch.dfy`, with its proofs in `multiarch_properties.dfy`.
  - A value is either `system` or comma-separated clauses `arch=[...]`, `platform=[...]` and `digest=[...]`.
  - The parser returns the platforms to copy and the digests to copy, or a single error and nothing else.
  - The parser is a set of pure functions over strings. `Render` is its inverse, and the round trip is proved both ways.
  - The outcomes of the command's test table are proved for every input of the same shape.
- **Shell completion of image references**, in `completions.dfy`.
  - `supportedTransportSuggestions` is an imperative loop, proved against a recursive specification.
  - `autocompleteImageNames` is a pure dispatch on the text before the first `:`.
- **libtrust's fixed-width ECDSA signature encoding**, in `ec_signature.dfy`.
  - r and s are left-padded to `(BitSize + 7) >> 3` octets and concatenated, R first. This is the JWS format of section 3.4 of RFC 7518.
  - It is written with Go's `make` and `append` as array methods.
  - The proofs show that splitting the signature and reading each half big-endian recovers r and s.
- **Two helpers of `skopeo sync`**, in `sync.dfy`.
  - `getSubPath` strips the registry prefix from a path.
  - The `tls-verify` YAML field is mapped to the tri-state `skip` flag.

`strings.dfy` holds Go `strings` operations with their own lemmas. Of these, the modelled code calls only `strings.Cut` (cmd/skopeo/completions.go:77); `HasPrefix`, `TrimPrefix`, `TrimSuffix`, `IndexByte`, `Split` and `Join` are the model's building blocks for the parser, `getSubPath` and the rendering of selectors.

The models of `parseMultiArchSparse`, `getSubPath` and `tlsVerifyConfig.UnmarshalYAML` are written from the unit tests that pin their behaviour, not from their code:
- cmd/skopeo/copy_test.go:22-258;
- cmd/skopeo/sync_test.go:14-87.

Where the tests leave a choice open, the model makes the choice listed under "Left out".

## Model

| member | source | states |
|---|---|---|
| MultiArch.ParseMultiArchSparse | cmd/skopeo/copy_test.go:22-258 | the modelled `parseMultiArchSparse`: `system` is always accepted, and any other accepted value starts with a keyword; its full contract is carried by ParseRendered, AcceptedIsRendered, LaterErrorWins and ErrorFragmentInInput |
| MultiArch.ParseClauses | cmd/skopeo/copy_test.go:215-239 | an accepted comma-separated selector holds at least one clause; the round trip is carried by ParseRenderedClauses and RenderParsedClauses |
| MultiArch.ParsePlatform | cmd/skopeo/copy_test.go:177-204 | a parsed `platform=` entry has a non-empty OS and architecture, and no field holds `/`; PlatformRoundTrip and ParsePlatformInverse give the round trip |
| MultiArch.MatchKey | cmd/skopeo/copy_test.go:47-61 | a value is read as a clause only when it starts with `arch=`, `platform=` or `digest=`; otherwise no keyword is a prefix of it |
| MultiArch.FirstInvalidDigestSpec | cmd/skopeo/copy_test.go:157-166 | a digest list is accepted exactly when every entry is a well-formed digest; a reported entry is one of the malformed ones |
| MultiArch.ParsePlatformsSpec | cmd/skopeo/copy_test.go:177-204 | a `platform=` list parses to one platform per entry, in order, or fails exactly when some entry is malformed |
| MultiArchProperties.PlatformRoundTrip | cmd/skopeo/copy_test.go:177-204 | a valid platform written as `os/arch[/variant]` parses back to itself |
| MultiArchProperties.ParsePlatformInverse | cmd/skopeo/copy_test.go:177-204 | a parsed `os/arch[/variant]` entry is spelled back exactly, and is valid when it holds no `,` or `]` |
| MultiArchProperties.BuildClauseOfItems | cmd/skopeo/copy_test.go:101-204 | a well-formed clause is rebuilt from its own list items |
| MultiArchProperties.BuildClauseInverse | cmd/skopeo/copy_test.go:101-204 | a clause built from list items has that keyword, gives those items back and is well-formed |
| MultiArchProperties.ParseRenderedClause | cmd/skopeo/copy_test.go:101-204 | parsing `key=[items]` followed by any text gives the clause and leaves that text untouched |
| MultiArchProperties.RenderParsedClause | cmd/skopeo/copy_test.go:101-204 | every clause the parser accepts is well-formed and is exactly the text it came from |
| MultiArchProperties.ParseRenderedClauses | cmd/skopeo/copy_test.go:215-239 | any non-empty list of well-formed clauses, joined by commas, parses back to itself |
| MultiArchProperties.RenderParsedClauses | cmd/skopeo/copy_test.go:215-239 | every clause list the parser accepts is well-formed and renders back to the input |
| MultiArchProperties.ParseRendered | cmd/skopeo/copy_test.go:215-239 | a rendered selector parses to the selection its clauses ask for |
| MultiArchProperties.AcceptedIsRendered | cmd/skopeo/copy_test.go:62-239 | every accepted value is `system` or the rendering of well-formed clauses, and selects what those clauses ask for |
| MultiArchProperties.ExpandAppend | cmd/skopeo/copy_test.go:215-239 | the platforms and the digests of two clause lists in a row are those of the first, then those of the second |
| MultiArchProperties.RenderAppend | cmd/skopeo/copy_test.go:215-239 | two clause lists in a row render as the first, a comma, then the second |
| MultiArchProperties.JoinedSelectors | cmd/skopeo/copy_test.go:215-239 | two selectors joined by a comma select the first's platforms then the second's, and likewise for digests |
| MultiArchProperties.SystemSelection | cmd/skopeo/copy_test.go:62-100 | `system` selects exactly one platform whose OS, architecture and variant are the overrides as given ("" when unset), and no digests |
| MultiArchProperties.ParseSingleClause | cmd/skopeo/copy_test.go:101-204 | a selector of one clause selects that clause's platforms and digests |
| MultiArchProperties.ArchListSelection | cmd/skopeo/copy_test.go:101-146 | `arch=[a1,...,an]` selects n platforms in order; platform i has architecture ai and OS the OS override, else the host OS; the architecture override plays no part; there are no digests |
| MultiArchProperties.PlatformListSelection | cmd/skopeo/copy_test.go:177-204 | `platform=[...]` selects exactly the listed platforms, in order, whatever the overrides, and no digests |
| MultiArchProperties.DigestListSelection | cmd/skopeo/copy_test.go:157-166 | `digest=[d1,...,dn]` selects exactly those digests, in order, and no platforms |
| MultiArchProperties.MixedSelection | cmd/skopeo/copy_test.go:215-239 | `platform=[..],arch=[..],digest=[..]` selects the platform entries, then the arch entries, with the digests in their own list |
| MultiArchProperties.UnknownKeyRejected | cmd/skopeo/copy_test.go:47-61 | a value other than `system` that starts with no keyword fails as an unrecognized value naming the whole value |
| MultiArchProperties.UnknownFirstCharRejected | cmd/skopeo/copy_test.go:33-61 | the empty value, and every value that does not start with `a`, `p`, `d` or `s`, fail as unrecognized values |
| MultiArchProperties.TableUnrecognizedValues | cmd/skopeo/copy_test.go:33-61 | the table's empty value, `,`, `,,` and unknown keywords (bare or bracketed) fail as unrecognized values |
| MultiArchProperties.AcceptedSelectsSomething | cmd/skopeo/copy_test.go:62-239 | every accepted value selects at least one platform or one digest |
| MultiArchProperties.MissingOpenerRejected | cmd/skopeo/copy_test.go:147-214 | a keyword whose list does not open with `[` fails as an unrecognized value |
| MultiArchProperties.MissingCloserRejected | cmd/skopeo/copy_test.go:152-214 | a list opened with `[` and never closed fails with the "] not found" kind |
| MultiArchProperties.LaterErrorWins | cmd/skopeo/copy_test.go:248-254 | no partial result: valid clauses before a failing tail do not survive, and the tail's error is the outcome |
| MultiArchProperties.ErrorFragmentInInput | cmd/skopeo/copy_test.go:249-251 | the fragment an error reports is part of the value given to the parser |
| MultiArchProperties.MessageContents | cmd/skopeo/copy_test.go:249-251 | a message names its fragment, and contains "unrecognized value" or "] not found" according to the kind |
| Completions.Suggestions | cmd/skopeo/completions.go:107-119 | the specification of the suggestion list: at most one entry per name, each ending in `:`; SuggestionsMembership, SuggestionsLength and SuggestionsAppend state the rest |
| Completions.AutocompleteImageNames | cmd/skopeo/completions.go:76-104 | with no `:` the candidates are the transport suggestions, and any candidate offered comes with NoSpace and NoFileComp; the per-transport lemmas below state each branch |
| Completions.CompleteTransport | cmd/skopeo/completions.go:82-103 | the only candidate ever offered after a transport is `docker://`, for `docker` with empty details; file completion is suppressed if and only if the transport is none of oci-archive, docker-archive, sif, oci, dir |
| Completions.SupportedTransportSuggestions | cmd/skopeo/completions.go:107-119 | the loop returns the specification `Suggestions` of the transport names |
| Completions.SuggestionsAppend | cmd/skopeo/completions.go:110-117 | suggestions keep the order of the names: those for a concatenation are those for each part in turn |
| Completions.SuggestionsMembership | cmd/skopeo/completions.go:113-116 | a string is suggested if and only if it is a name other than `tarball` with `:` appended |
| Completions.TarballNeverSuggested | cmd/skopeo/completions.go:111-116 | `tarball:` is never suggested, and every other name is, with `:` |
| Completions.SuggestionsLength | cmd/skopeo/completions.go:109-117 | the number of suggestions is the number of names other than `tarball` |
| Completions.NoTransportTyped | cmd/skopeo/completions.go:77-81 | input with no `:` gets the transport suggestions with {NoSpace, NoFileComp} |
| Completions.CutAtFirstColon | cmd/skopeo/completions.go:77-82 | the input is cut at its first `:`; everything after it, further colons included, is the details |
| Completions.ArchiveTransports | cmd/skopeo/completions.go:83-86 | `oci-archive:` and `docker-archive:` get no completions and {NoSpace}, whatever follows |
| Completions.PathTransports | cmd/skopeo/completions.go:87-96 | `sif:` and `dir:` get no completions and the default directive (the empty set); `oci:` gets Default with NoSpace, which is {NoSpace} |
| Completions.DockerAlone | cmd/skopeo/completions.go:98-101 | `docker:` with nothing after it completes to exactly `docker://` with {NoSpace, NoFileComp} |
| Completions.DockerWithDetails | cmd/skopeo/completions.go:98-103 | `docker:` followed by anything gets no completions and {NoSpace, NoFileComp} |
| Completions.UnknownTransport | cmd/skopeo/completions.go:82-103 | any other transport name, `tarball` included, gets no completions and {NoSpace, NoFileComp} |
| Completions.FileCompletionAfterPathTransports | cmd/skopeo/completions.go:76-104 | file completion is left on if and only if a transport whose references are paths (oci-archive, docker-archive, sif, oci, dir) has been typed |
| Completions.CandidatesAfterTransport | cmd/skopeo/completions.go:82-103 | once a `:` is typed, the only candidate ever offered is `docker://`, and only for the input `docker:` |
| EcSignature.OctetLength | vendor/github.com/containers/libtrust/ec_key_no_openssl.go:28 | `(BitSize + 7) >> 3` is the ceiling of BitSize / 8 |
| EcSignature.LeftPad | vendor/github.com/containers/libtrust/ec_key_no_openssl.go:29-31 | a padded coordinate has exactly `octetLength` bytes |
| EcSignature.Signature | vendor/github.com/containers/libtrust/ec_key_no_openssl.go:30-36 | the signature has exactly `2 * octetLength` bytes |
| EcSignature.Make | vendor/github.com/containers/libtrust/ec_key_no_openssl.go:30-31 | `make` gives a fresh buffer of the requested capacity whose bytes in use are zero |
| EcSignature.AppendInPlace | vendor/github.com/containers/libtrust/ec_key_no_openssl.go:33-34 | `append` into spare capacity puts the source after the bytes in use and changes nothing beyond them |
| EcSignature.AppendGrow | vendor/github.com/containers/libtrust/ec_key_no_openssl.go:36 | appending to a full buffer gives a new buffer with the first's bytes, then the second's |
| EcSignature.EncodeSignature | vendor/github.com/containers/libtrust/ec_key_no_openssl.go:27-36 | the encoder's output is R left-padded to `octetLength`, then S left-padded to `octetLength`; it requires both to fit, as `make` panics on a negative length |
| EcSignature.SignatureLayout | vendor/github.com/containers/libtrust/ec_key_no_openssl.go:29-34 | the first `octetLength - len(r)` bytes are zero and the rest of the first half is r; the same holds for s in the second half |
| EcSignature.LeadingZerosValue | vendor/github.com/containers/libtrust/ec_key_no_openssl.go:29-30 | leading zero bytes do not change the big-endian value |
| EcSignature.LeftPadIsEncoding | vendor/github.com/containers/libtrust/ec_key_no_openssl.go:29-31 | a padded coordinate denotes the same number, and is that number's unique big-endian encoding on `octetLength` octets |
| EcSignature.ValueEncode | vendor/github.com/containers/libtrust/ec_key_no_openssl.go:27 | a byte string is the big-endian encoding, on its own length, of the number it denotes |
| EcSignature.EncodeValue | vendor/github.com/containers/libtrust/ec_key_no_openssl.go:27 | a number below 256^n encoded on n bytes reads back as itself |
| EcSignature.SignatureOfValues | vendor/github.com/containers/libtrust/ec_key_no_openssl.go:27-36 | the signature is the big-endian encoding of r then of s, `octetLength` octets each |
| EcSignature.DecodeSignature | vendor/github.com/containers/libtrust/ec_key_no_openssl.go:27-36 | splitting the signature at `octetLength` and reading each half recovers the values of r and s |
| EcSignature.DecodeEncodedPair | vendor/github.com/containers/libtrust/ec_key_no_openssl.go:27-36 | any two numbers that fit in `octetLength` octets are recovered from their concatenated encodings |
| EcSignature.SignatureOfHalves | vendor/github.com/containers/libtrust/ec_key_no_openssl.go:33-36 | every `2 * octetLength`-byte string is the signature of its own two halves |
| Sync.GetSubPath | cmd/skopeo/sync_test.go:48-87 | the result is never longer than the path; without a registry the path is the result, possibly followed by one `/`; with one, a path below it is `registry + "/"` followed by the result, and any other path is returned unchanged |
| Sync.SubPathBelowRegistry | cmd/skopeo/sync_test.go:55-66 | with a registry (with or without a sub-path), a path below it loses exactly `registry + "/"` |
| Sync.SubPathRejoins | cmd/skopeo/sync_test.go:55-66 | putting `registry + "/"` back in front of the sub-path gives the full path |
| Sync.SubPathOutsideRegistry | cmd/skopeo/sync_test.go:55-66 | a path that is not below the registry is returned unchanged |
| Sync.TrailingSlashRemoved | cmd/skopeo/sync_test.go:67-72 | with no registry, one trailing `/` is removed |
| Sync.NoTrailingSlashKept | cmd/skopeo/sync_test.go:73-78 | with no registry, a path without a trailing `/` is returned unchanged |
| Sync.SubPathTableRegistry | cmd/skopeo/sync_test.go:55-60 | the test's "Registry" case |
| Sync.SubPathTableRegistrySubpath | cmd/skopeo/sync_test.go:61-66 | the test's "Registry with Subpath" case |
| Sync.SubPathTableNoRegistry | cmd/skopeo/sync_test.go:67-78 | the test's two cases without a registry |
| Sync.DecodeTLSVerify | cmd/skopeo/sync_test.go:14-46 | skip stays undefined exactly when the field is absent, and an error comes only from a present non-boolean value; TLSVerifyTable, SkipIsNotVerify, DecodeEncode and EncodeDecode state the rest |
| Sync.TLSVerifyTable | cmd/skopeo/sync_test.go:19-46 | `true` gives skip = OptionalBoolFalse; `false` gives skip = OptionalBoolTrue; no value gives skip = OptionalBoolUndefined; a non-boolean string is an error |
| Sync.DecodeErrorIff | cmd/skopeo/sync_test.go:42-45 | decoding fails exactly on a value that is present and not a boolean |
| Sync.SkipIsNotVerify | cmd/skopeo/sync_test.go:23-30 | a boolean always sets skip, and sets it to true exactly when verification is turned off |
| Sync.DecodeEncode | cmd/skopeo/sync_test.go:19-40 | every `skip` value is decoded from the field that describes it |
| Sync.EncodeDecode | cmd/skopeo/sync_test.go:19-40 | a field that decodes is the one that describes its configuration |

## Left out

- `completionCmd` (cmd/skopeo/completions.go:19-74) is left out: it generates shell scripts on standard output and exits the process.
- `transports.ListNames()` is a call into the image library, so the list of transport names is the parameter `names`.
- cobra encodes directives as bits of an integer. Here they are a set of flags, and `ShellCompDirectiveDefault`, the value 0, is the empty set.
- Go distinguishes a nil slice from an empty one; the model does not. For completions, `[]` stands for the nil that `autocompleteImageNames` returns. For the parser, the `[]` platforms or digests of a `Selection`, and the absent lists of an `Err`, stand for the nil lists that cmd/skopeo/copy_test.go:253-254 expects whenever a table row gives none.
- The hashing and `ecdsa.Sign` steps of `(*ecPrivateKey).sign` (vendor/github.com/containers/libtrust/ec_key_no_openssl.go:14-26) are left out. They are a reader stream, a foreign crypto call and a random source, so r and s arrive as byte strings.
- EcSignature.EncodeSignature: the panic of `make` on a negative length is a precondition, not a modelled failure.
- EcSignature.AppendGrow: the capacity Go's `append` picks when it grows a slice is not modelled, only the bytes in use.
- EcSignature.OctetLength: `BitSize` is a `nat`; Go's `int` overflow does not arise for curve sizes and is not modelled.
- The model of `parseMultiArchSparse` follows the test table at cmd/skopeo/copy_test.go:22-258, and where the table is silent the model chooses:
  - an empty list item is an unrecognized value;
  - text after a clause's `]` that is not a comma fails as an unrecognized value naming that text (MultiArchProperties.TrailingTextRejected);
  - a trailing comma, as in `arch=[amd64],`, leaves an empty clause and fails as `UnrecognizedValue("")` (MultiArchProperties.TrailingCommaRejected);
  - a `platform=` entry has two or three non-empty `/`-separated parts;
  - a malformed digest is a third error kind, `InvalidDigest`;
  - the message text beyond "unrecognized value" and "] not found" is the model's own.
- Digest well-formedness follows go-digest's format rule: `sha256`, `sha384` or `sha512`, a colon, and lower-case hex of the length the algorithm fixes. Computing digests (`digest.Canonical.FromBytes` in the test) is left out, so the digest cases are proved for every well-formed digest.
- `overrideVariant` for `arch=`: the model copies the variant override into each `arch=` platform. No test fixes this. ArchListSelection therefore states only the OS and the architecture of each platform. Lemmas stated through `Expand` or `ArchPlatforms` (ParseRendered, MixedSelection) carry this choice along, and it is a choice of the model, not a behaviour of the source.
- `runtime.GOOS` is the parameter `hostOS`.
- The models of `getSubPath` and `tlsVerifyConfig.UnmarshalYAML` follow their tests. `GetSubPath` is written as `TrimSuffix(path, "/")` without a registry and `TrimPrefix(path, registry + "/")` with one. The sync_test.go cases fix that behaviour, not the code.
- Sync.DecodeTLSVerify: YAML parsing (tokenising, which spellings resolve to booleans, quoting) belongs to the YAML library and is left out. The field arrives already resolved: absent, a boolean, or some other scalar.
- Go strings are byte strings, while the model's strings are sequences of characters. The operations used (prefixes, single-character separators) do not depend on the difference.
