# compose_yml interpolation core, in Dafny

This project models how the `compose_yml` library (version 3 of the
`docker-compose.yml` format) handles environment-variable interpolation, and
proves properties of that model:

- **Interpolation** (module `Interpolation`, `interpolation.dfy`). One scanner
  runs in three modes:
  - *interpolate* substitutes variables from an environment;
  - *unescape* only rewrites `$$` and refuses any genuine reference;
  - *validate* checks the syntax only.

  After each `$` the scanner recognises, in order:
  - `$NAME`;
  - `${NAME}`, `${NAME-default}` and `${NAME:-default}`;
  - `$$`;
  - anything else, which is a syntax error.

  The regular expression is reproduced by a hand-written matcher
  (`NextPiece`). A reference definition (`Pieces`, `Expand`, `Interpolation`)
  cuts the input into pieces and folds their replacements; on a fold, the
  last error recorded wins. The imperative scanner `InterpolateHelper` builds
  the output and overwrites an error slot as it goes, and is proved equal to
  that definition. Escaping, unescaping and validating are built on it.
- **The dual value** (module `RawOrValues`, `raw_or.dfy`). A configuration
  field is either `Raw(s)` or `Value(v)`:
  - `Raw(s)` is an interpolation string that still refers to the environment;
  - `Value(v)` is a parsed payload.

  The payload type comes with a `Codec`: a partial `parse` and a total
  `format`. The class `RawOr` updates its state in place when it is resolved
  against an environment.
- **Resolving a whole configuration** (module `ResolveAll`,
  `interpolate_all.dfy`):
  - a tree walk over plain values, options, lists, key-ordered maps and
    records;
  - the in-place loops over a list and over a map's entries, as array
    methods.
- **Two payload codecs**:
  - `Volumes` (`volumes_from.dfy`) is `[container:]name[:mode]`, with the
    volume mode kept abstract;
  - `Permissions` (`permissions.dfy`) is the device flag string `r?w?m?`.

The environment is a `map<string, string>`; a missing key is an unset
variable. Errors live in `Errors` (`errors.dfy`).

### Points the code decides

These follow from `src/v3/interpolation.rs` alone; the model follows the code.

- **The last error wins.** The replacement callback overwrites one error
  slot on every failing match (`src/v3/interpolation.rs:99`, `:106`, `:128`),
  and the slot is checked only after the whole scan. A text with several bad
  matches therefore reports the LAST one, not the first (`LastErrorWins`,
  `LastErrorIsSyntax`, `LastErrorIsUndefined`). So `${ $FO` with `FO` unset
  reports the undefined variable `FO`, not the syntax error at `${`.
- **Names need two characters.** The name pattern ends in `+`
  (`src/v3/interpolation.rs:80`), so `$X` falls through to the syntax error
  (`IsName`, `OneCharacterNameIsInvalid`).
- **Newlines.** The default and the unknown alternative use `.`, which does
  not match a newline. A default runs to the last `}` before the first
  newline, and a `$` directly before a newline is not matched at all, so it is
  copied as text (`DollarBeforeNewline`).
- **Unset variables are errors.** A reference without a default to an unset
  variable fails with the undefined-variable error instead of becoming empty
  (`src/v3/interpolation.rs:126-129`, `UndefinedExample`).

## Model

| member | source | states |
|---|---|---|
| Interpolation.IdentRun | src/v3/interpolation.rs:80 | the run of identifier characters at the start of a text is maximal: every character before it is one, the next is not |
| Interpolation.NameLength | src/v3/interpolation.rs:80 | the name matched at the start of a text: none unless the first character may start a name; when two or more characters are taken they form a name and are followed by a non-identifier character (greedy) |
| Interpolation.LineLength | src/v3/interpolation.rs:83 | the default may not cross a newline: the length up to the first newline |
| Interpolation.DefaultEnd | src/v3/interpolation.rs:83 | the default ends at the last `}` before the first newline, and no `}` lies after it on that line |
| Interpolation.BracedMatch | src/v3/interpolation.rs:83 | a braced match takes at least one character and always yields a braced reference to a valid name |
| Interpolation.AfterName | src/v3/interpolation.rs:83 | a completed braced match is a braced reference to the given name, and it consumes at least one character and stays within the text |
| Interpolation.AfterNameSpells | src/v3/interpolation.rs:83 | the text a completed match consumes after a braced name is exactly the reference's default as written (`-d`, `:-d` or nothing) followed by `}` |
| Interpolation.MatchDollar | src/v3/interpolation.rs:74-91 | the match at a `$` consumes at least the `$` and stays within the input; a `$` directly before a newline is left as the text `$` (see `DollarBeforeNewline`) |
| Interpolation.NextPiece | src/v3/interpolation.rs:94 | the scanner always advances: the next piece takes at least one character of the input |
| Interpolation.Pieces | src/v3/interpolation.rs:94 | the matches and the characters between them, left to right: never more pieces than characters, and none exactly for the empty input |
| Interpolation.PiecesSpellInput | src/v3/interpolation.rs:94 | cutting the input into text characters and matches loses nothing: spelling the pieces back gives the input |
| Interpolation.NextPieceSpells | src/v3/interpolation.rs:74-91 | the characters a match consumes are exactly the spelling of the piece it yields |
| Interpolation.ExpandStep | src/v3/interpolation.rs:93-137 | the fold over the pieces of a text is the first piece's replacement followed by the fold over the rest |
| Interpolation.Replace | src/v3/interpolation.rs:95-132 | the callback on one match; its meaning is fixed by `ReplaceFails` |
| Interpolation.ReplaceFails | src/v3/interpolation.rs:95-132 | a match fails exactly when it is an unknown `$`, a reference in unescape mode, or in interpolate mode a reference to an unset variable without a default; a failing match contributes no text |
| Interpolation.Expand | src/v3/interpolation.rs:94-136 | the fold of the callback over all pieces; its error is characterised by `ExpandErrorFree` and `LastErrorWins` |
| Interpolation.Interpolation | src/v3/interpolation.rs:67-138 | the reference definition of the scanner in one mode; `InterpolateHelper` is proved equal to it |
| Interpolation.ScanStep | src/v3/interpolation.rs:93-137 | the scan's invariant is kept by one step: what is built so far, followed by the rest of the fold, is the whole fold |
| Interpolation.ApplyMatch | src/v3/interpolation.rs:95-132 | one callback invocation appends the replacement text and overwrites the error slot when the match fails |
| Interpolation.InterpolateHelper | src/v3/interpolation.rs:67-138 | the imperative scanner, in any mode and environment, returns exactly the reference definition `Interpolation` |
| Interpolation.InterpolateEnv | src/v3/interpolation.rs:142-144 | the scanner in interpolate mode; its behaviour is stated by `BareReference`, `BracedReference`, `DefaultReference`, `DefinedVariablesSuffice` and `InterpolateValidates` |
| Interpolation.UnescapeStr | src/v3/interpolation.rs:207-211 | the scanner in unescape mode, with no environment consulted; characterised by `UnescapeAcceptsIff`, `UnescapeAgrees` and `UnescapeRefusesReferences` |
| Interpolation.ValidateStr | src/v3/interpolation.rs:227-231 | the scanner in validate mode, keeping only success or the error; characterised by `ValidateAcceptsIff` and `ValidateIgnoresEnv` |
| Interpolation.EscapeStr | src/v3/interpolation.rs:194-196 | escaping adds one character per `$` of the input |
| Interpolation.NoDollarUnchanged | src/v3/interpolation.rs:94 | a text without `$` is returned unchanged in every mode and environment |
| Interpolation.EscapedDollarIsLiteral | src/v3/interpolation.rs:101-103 | `$$` followed by text without `$` becomes one `$` and that text, in every mode and whatever the environment holds |
| Interpolation.EscapeRoundTrip | src/v3/interpolation.rs:194-211 | an escaped text interpolates to the original in every mode; unescape returns the original and validate accepts it |
| Interpolation.ExpandErrorFree | src/v3/interpolation.rs:93-136 | the scan records an error if and only if some match fails |
| Interpolation.LastErrorWins | src/v3/interpolation.rs:93-136 | the error surfaced is that of a failing match after which no match fails |
| Interpolation.ValidateAcceptsIff | src/v3/interpolation.rs:227-231 | validate succeeds if and only if no `$` falls through to the unknown alternative; its only error is a syntax error carrying the whole input |
| Interpolation.UnescapeAcceptsIff | src/v3/interpolation.rs:207-211 | unescape succeeds if and only if there is neither an unknown match nor a genuine reference |
| Interpolation.ValidateIgnoresEnv | src/v3/interpolation.rs:115-117 | validation discards the variable lookup: its result does not depend on the environment |
| Interpolation.ExpandWithoutReferences | src/v3/interpolation.rs:101-107 | without genuine references every mode and every environment gives the same scan |
| Interpolation.UnescapeAgrees | src/v3/interpolation.rs:101-117 | where unescape succeeds, interpolation in any environment gives the same text and validate accepts |
| Interpolation.InterpolateValidates | src/v3/interpolation.rs:95-117 | a text that interpolates successfully in some environment is valid syntax |
| Interpolation.UnescapeRefusesReferences | src/v3/interpolation.rs:104-107 | on valid syntax unescape can only fail with the "interpolation disabled" error carrying the whole input |
| Interpolation.DefinedVariablesSuffice | src/v3/interpolation.rs:115-130 | valid syntax whose references without a default all have a value interpolates successfully |
| Interpolation.BareReference | src/v3/interpolation.rs:110-130 | `$NAME` followed by text is replaced by the variable's value, or fails with the undefined-variable error naming it |
| Interpolation.BracedReference | src/v3/interpolation.rs:83 | `${NAME}` followed by text is replaced by the variable's value, or fails with the undefined-variable error naming it |
| Interpolation.DefaultReference | src/v3/interpolation.rs:118-125 | `${NAME-d}` gives the value whenever the variable is set, even to the empty text; `${NAME:-d}` gives `d` when it is unset or empty; the default is inserted verbatim |
| Interpolation.GreedyDefault | src/v3/interpolation.rs:83 | the default runs to the last `}`: `${NAME-x}y}` with `NAME` unset gives `x}y` |
| Interpolation.InvalidAtStart | src/v3/interpolation.rs:89-100 | a text whose first `$` falls through to the unknown alternative, including a lone trailing `$`, fails with the syntax error in every mode, when no later `$` follows |
| Interpolation.LoneDollarIsInvalid | src/v3/interpolation.rs:173-175 | `$` alone and `$}` fail with the syntax error carrying the input, in every mode |
| Interpolation.UnknownBrace | src/v3/interpolation.rs:173-180 | `${` not completed by the braced alternative fails with the syntax error in every mode, when no later `$` follows |
| Interpolation.NoNameAfterBrace | src/v3/interpolation.rs:174-177 | `${` not followed by a name start (`${`, `${}`, `${ }`) fails with the syntax error in every mode, when no later `$` follows |
| Interpolation.BadCharAfterName | src/v3/interpolation.rs:179-180 | a braced name followed by a character other than `}`, `-` or `:` fails with the syntax error in every mode, when no later `$` follows |
| Interpolation.SpaceAfterName | src/v3/interpolation.rs:179 | `${foo }` fails with the syntax error in every mode |
| Interpolation.SpaceInsteadOfName | src/v3/interpolation.rs:177-178 | a space where the name should be (`${ }`, `${ foo}`, and any `$`-free text after the space) fails with the syntax error in every mode |
| Interpolation.BangAfterName | src/v3/interpolation.rs:180 | `${foo!}` fails with the syntax error in every mode |
| Interpolation.OneCharacterNameIsInvalid | src/v3/interpolation.rs:80 | `$X` is not a reference: it fails with the syntax error in every mode |
| Interpolation.DollarBeforeNewline | src/v3/interpolation.rs:89 | a `$` before a newline is not matched and is copied as text in every mode |
| Interpolation.UndefinedExample | src/v3/interpolation.rs:183-191 | `$NOSUCH` with `NOSUCH` unset fails with the undefined-variable error |
| Interpolation.ReferencePieces | src/v3/interpolation.rs:153-154 | `$FOO` and `${FOO}` are each one reference to `FOO` |
| Interpolation.BareReferenceModes | src/v3/interpolation.rs:213-239 | `$NAME` is refused by unescape with the disabled error and accepted by validate |
| Interpolation.ReferenceExamples | src/v3/interpolation.rs:233-239 | unescape refuses `$FOO`; validate accepts `$FOO` and `${FOO}` |
| Interpolation.LastErrorIsSyntax | src/v3/interpolation.rs:99 | with an undefined reference followed by a lone `$`, the later syntax error is reported |
| Interpolation.LastErrorIsUndefined | src/v3/interpolation.rs:128 | with a lone `$` followed by an undefined reference, the later undefined-variable error is reported |
| RawOrValues.TextCodec | src/v3/interpolation.rs:342 | plain strings parse as themselves and format as themselves |
| RawOrValues.TextRoundTrips | src/v3/interpolation.rs:342 | the string codec round-trips |
| RawOrValues.WellFormed | src/v3/interpolation.rs:378-380 | the raw-state invariant: a raw string is valid syntax that does not unescape, i.e. holds a genuine reference |
| RawOrValues.FromRaw | src/v3/interpolation.rs:447-464 | invalid syntax is refused with the syntax error; text that unescapes is parsed at once, with a parse error propagated; valid syntax that does not unescape is kept verbatim as `Raw`; the result always satisfies the raw-state invariant |
| RawOrValues.FromEscaped | src/v3/interpolation.rs:468-475 | a literal is parsed and never interpolated; it succeeds exactly when parsing does, with the parse error otherwise |
| RawOrValues.FromValue | src/v3/interpolation.rs:479-484 | a wrapped payload satisfies the invariant and reads back as itself |
| RawOrValues.ValueOf | src/v3/interpolation.rs:499-506 | a payload is returned; a raw string gives exactly the error unescape reports on it, the disabled error |
| RawOrValues.Resolve | src/v3/interpolation.rs:530-557 | a payload is returned as it is; a raw string is interpolated, with its error propagated, and the result parsed |
| RawOrValues.Resolved | src/v3/interpolation.rs:540-550 | after resolving, the state holds the payload on success and is unchanged on failure |
| RawOrValues.Render | src/v3/interpolation.rs:587-600 | the display form; stated by `RenderRoundTrip`, `RenderIsValid` and `EscapedRendersEscaped` |
| RawOrValues.RenderRoundTrip | src/v3/interpolation.rs:587-600 | reading back what is displayed gives the same dual value, for any well-formed value whose payload (if any) reads back from its own text form |
| RawOrValues.RenderIsValid | src/v3/interpolation.rs:587-600 | what is displayed is always valid interpolation syntax |
| RawOrValues.EscapedRendersEscaped | src/v3/interpolation.rs:594-597 | a literal displays as its escaped text when formatting restores it |
| RawOrValues.ResolveExtendsValueOf | src/v3/interpolation.rs:540-542 | where the payload is available, resolving returns it in any environment and changes nothing |
| RawOrValues.ResolvedIsWellFormed | src/v3/interpolation.rs:544-550 | resolving keeps the raw-state invariant |
| RawOrValues.ResolveIdempotent | src/v3/interpolation.rs:540-557 | once resolved, resolving again in any environment returns the same payload and changes nothing |
| RawOrValues.ResolveNeedsOnlyDefinedVariables | src/v3/interpolation.rs:544-546 | a raw string whose references without a default are all defined fails only if its payload does not parse |
| RawOrValues.RawReferenceExample | src/v3/interpolation.rs:447-464 | `$NAME` stays raw and displays verbatim; resolved against a value it becomes that value, which displays escaped |
| RawOrValues.FromRawWithoutDollar | src/v3/interpolation.rs:453-459 | a text without `$` is parsed at once, as a literal would be |
| RawOrValues.RawOr.constructor | src/v3/interpolation.rs:434 | wraps a dual value that satisfies the invariant |
| RawOrValues.RawOr.InterpolateEnv | src/v3/interpolation.rs:530-557 | returns what `Resolve` gives on the old state; the new state is the resolved one (payload on success, untouched raw string on failure); the invariant is kept |
| RawOrValues.RawOr.SetValue | src/v3/interpolation.rs:518-525 | through the mutable accessor a payload is overwritten; a raw string refuses with the disabled error and is left as it was |
| ResolveAll.Walk | src/v3/interpolation.rs:639-687 | the recursive walk over one node; stated by `WalkKeepsShape`, `WalkResolvesAll`, `WalkResolvedIsNoOp` and `WalkTwice` |
| ResolveAll.WalkSeq | src/v3/interpolation.rs:664-701 | the walk over the items of a list, map or record, stopping at the first failure; it keeps the number of items, and `WalkSeqFailsFast` states the rest |
| ResolveAll.WalkKeepsShape | src/v3/interpolation.rs:639-701 | the walk changes no structure: the same constructors, present options, lengths of lists, maps and records, and map keys; only the contents of dual values may differ |
| ResolveAll.WalkResolvesAll | src/v3/interpolation.rs:655-687 | a walk that succeeds leaves no raw string anywhere in the tree |
| ResolveAll.WalkResolvedIsNoOp | src/v3/interpolation.rs:643-662 | plain values, absent options and resolved dual values are untouched and the walk succeeds |
| ResolveAll.WalkTwice | src/v3/interpolation.rs:682-687 | after a successful walk, walking again in any environment succeeds and changes nothing |
| ResolveAll.FirstFailingItem | src/v3/interpolation.rs:664-671 | the index of the first element whose walk fails, or the length when none does |
| ResolveAll.WalkSeqFailsFast | src/v3/interpolation.rs:664-701 | over the elements of a list, the values of a map or the fields of a record: the result is that of the first failing element; it and all elements before it are walked; none after it is touched |
| ResolveAll.FirstFailure | src/v3/interpolation.rs:664-671 | the index of the first dual value whose resolution fails, or the length when none does |
| ResolveAll.FirstFailuresAgree | src/v3/interpolation.rs:664-671 | on a list of dual values, the first failing element of the walk is the first failing resolution |
| ResolveAll.ResolvePrefix | src/v3/interpolation.rs:664-671 | the list with exactly the elements before a given index resolved and the others unchanged |
| ResolveAll.WalkDuals | src/v3/interpolation.rs:664-671 | walking a list of dual values gives the first failure's error and resolves exactly the elements before that failure |
| ResolveAll.InterpolateAllList | src/v3/interpolation.rs:664-671 | the in-place loop over a list returns the first failure's error, or success, and leaves exactly the elements before that failure resolved |
| ResolveAll.Values | src/v3/interpolation.rs:673-680 | the values of a map's entries, in key order |
| ResolveAll.ResolveEntries | src/v3/interpolation.rs:673-680 | the entries with the keys kept and the values before a given index resolved |
| ResolveAll.InterpolateAllMap | src/v3/interpolation.rs:673-680 | the in-place loop over a map's entries keeps every key, returns the first failing value's error, and leaves exactly the values before it resolved |
| Volumes.OfService | src/v3/volumes_from.rs:46-52 | a service reference with the given name and the default mode |
| Volumes.OfContainer | src/v3/volumes_from.rs:63-69 | a container reference with the given name and the default mode |
| Volumes.Format | src/v3/volumes_from.rs:74-87 | a container is written with the `container:` prefix; a service with the default mode is written as its name alone |
| Volumes.ColonIndex | src/v3/volumes_from.rs:95 | the position of the first colon, or the length when there is none |
| Volumes.NameAndMode | src/v3/volumes_from.rs:95 | on a match the name is a non-empty colon-free segment, and the text is the name alone or the name, a colon and a non-empty colon-free mode |
| Volumes.Match | src/v3/volumes_from.rs:94-106 | a match through the `container:` alternative means the text starts with `container:` and the rest splits into name and mode; a match without it means the whole text splits; no match means the whole text does not split |
| Volumes.MatchAfterPrefix | src/v3/volumes_from.rs:95-103 | the `container:` alternative is taken whenever the rest after the prefix splits into name and mode |
| Volumes.Parse | src/v3/volumes_from.rs:89-117 | a text the pattern does not match is an invalid `volumes_from` value; on success the name is a non-empty colon-free segment, and a container comes only from a text with the `container:` prefix |
| Volumes.VolumesCodec | src/v3/volumes_from.rs:72 | the payload codec of a volumes entry reads and writes with `Parse` and `Format` |
| Volumes.ContainerPrefixIff | src/v3/volumes_from.rs:95 | a segment followed by nothing or a colon starts with `container:` exactly when the segment is `container` and the colon is there |
| Volumes.MatchFormat | src/v3/volumes_from.rs:74-106 | written text matches the alternative of its source kind, capturing the name and, for a non-default mode, the mode's text |
| Volumes.ParseFormat | src/v3/volumes_from.rs:74-131 | reading back what is written gives it back, for non-empty colon-free names and mode texts, except a service named `container` with a non-default mode |
| Volumes.ServiceNamedContainer | src/v3/volumes_from.rs:79-103 | the exception: a service named `container` with a non-default mode reads back as a container named after the mode, with the default mode |
| Volumes.EmptyRefused | src/v3/volumes_from.rs:97-99 | the empty text is refused as an invalid `volumes_from` value |
| Volumes.MissingNameRefused | src/v3/volumes_from.rs:97-99 | a text starting with a colon is refused as an invalid value |
| Volumes.EmptyModeRefused | src/v3/volumes_from.rs:97-99 | a name followed by a colon and nothing else is refused, `container:` included |
| Volumes.ExtraColonRefused | src/v3/volumes_from.rs:97-99 | a service name followed by two colon-separated segments is refused as an invalid value |
| Volumes.ModeErrorPropagates | src/v3/volumes_from.rs:107-110 | a mode segment that does not parse makes the whole parse fail with the mode's own error |
| Volumes.ServiceExample | src/v3/volumes_from.rs:119-131 | the service `foo` with the default mode writes as `foo` and reads back |
| Volumes.RenderedVolumesReadBack | src/v3/volumes_from.rs:74-117 | a `volumes_from` payload displayed inside a configuration reads back as the same payload, under the conditions of `ParseFormat` |
| Volumes.ReadOnlyContainerExample | src/v3/volumes_from.rs:119-131 | the container `foo` with a read-only mode written `ro` writes as `container:foo:ro` and reads back |
| Permissions.Default | src/v3/permissions.rs:14-22 | the default allows read, write and mknod |
| Permissions.Format | src/v3/permissions.rs:24-37 | the text is one of the eight flag texts, has one letter per flag set, and contains `r`, `w` or `m` exactly when the flag is set |
| Permissions.Take | src/v3/permissions.rs:44 | an optional letter is taken exactly when it comes next |
| Permissions.Parse | src/v3/permissions.rs:39-55 | reading never fails: the anchored pattern matches every text |
| Permissions.DefaultIsRwm | src/v3/permissions.rs:57-60 | the default writes as `rwm` |
| Permissions.ParseFormat | src/v3/permissions.rs:24-55 | reading what is written gives it back, for all eight combinations |
| Permissions.FlagTextIsFixed | src/v3/permissions.rs:24-55 | a flag text reads and writes back as itself |
| Permissions.ParseLooksAtMatchAndNext | src/v3/permissions.rs:44 | reading inspects only the matched prefix and the character after it |
| Permissions.FormatParse | src/v3/permissions.rs:44-53 | writing what was read gives the matched prefix: a flag text, a prefix of the input, and no longer prefix of the input is a flag text |
| Permissions.ParseIdempotent | src/v3/permissions.rs:24-55 | reading, writing and reading again gives the same permissions |
| Permissions.ParseIgnoresTheRest | src/v3/permissions.rs:44-53 | characters after the matched prefix are ignored: `""` and `x` read as no permission, `rwmx` as the default |
| Permissions.DroppedFlagExamples | src/v3/permissions.rs:57-86 | dropping read, write or mknod from the default writes as `wm`, `rm` and `rw` |

## Left out

- The process environment and its trace logging (`OsEnvironment`) are not modelled. The environment is an explicit `map<string, string>` parameter, and `RawOr::interpolate` is `RawOr.InterpolateEnv` given that map.
- Interpolation.ValidateStr: validation still looks the variable up and discards the result; the lookup has no observable effect and is not modelled.
- The serde serialisation glue is not modelled. It is a thin wrapper over display and `raw`.
- The error-conversion plumbing (`IntoInvalidValueError`, the `impl_interpolatable_value!` macro) is not modelled. A payload's parse error is whatever its codec returns, passed through unchanged.
- The `PathBuf` payload is not modelled separately; it parses and formats as the identity on text, like `RawOrValues.TextCodec`.
- `MergeOverride for RawOr` is not modelled: the trait is not part of this model.
- ResolveAll.Walk: a tree carries one payload type for all its dual values. The source lets each field have its own type.
- ResolveAll.InterpolateAllList and ResolveAll.InterpolateAllMap: their elements are dual values held in an array, not `RawOr` objects. Aliasing between elements is not modelled.
- ResolveAll.InterpolateAllMap: a map is its entries in iteration order. The ordering of keys is not modelled.
- RawOrValues.RawOr.SetValue: models assigning through the mutable reference that `value_mut` returns. Holding that reference is not modelled.
- Volumes: the volume mode is abstract: a default value and a text codec. Its parsing and formatting are not part of this model.
- Permissions.Parse: the "no match" error branch of the source is left out. The pattern matches every text, so that branch cannot be taken.
- JSON-schema validation (`src/v3/validate/mod.rs`) and the example command-line program are not part of this model.
