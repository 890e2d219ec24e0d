# Metadata utilities: dispatcher, logging filter and version bump

This project models three pieces of the Informatica EDC metadata utilities in Dafny and proves properties about them.

**The JSON metadata converter (`ConvertJSONtoEDCLineage`).** This is module `LoadJsonMetadata`.
- For every JSON file of a directory, it runs the schema checker.
- It then routes the document on its classification:
  - a `physical_entity` goes to the metafile generator;
  - a `physical_entity_association` or `physical_attribute_association` goes to the lineage pipeline;
  - anything else is ignored.
- It folds the per-file results into one overall result. The most recent non-OK result wins.

**The logging filter (`MULogging`).** This is module `MuLogging`.
- It maps a configured level name to a custom level (FATAL 1 … VERBOSE 6) and to a level of Python's `logging` module.
- It passes a message on when its level is at most the configured one.
- It routes the message to one of the logger's five methods.

**The version bump of the packaging script.** This is module `VersionBump`. The script reads the version file line by line:
- It skips blank lines and `#` comments.
- Every other line must match `__version__\s+=\s+(.*)`.
- The captured version `A.B.C` is unquoted and split at the dots.
- The script writes `__version__ = "A.B.(C+1)"` to a temporary file.
- The last such line provides the version handed to the package metadata.

**Python's string handling that the bump relies on.** `strip`, one-character `split`, `int()` and `str()` are modelled in module `PyText`. Three kinds of whitespace are kept apart:
- `bytes.strip()` removes ASCII whitespace;
- the pattern's `\s` matches Python's Unicode whitespace;
- `int()` skips ASCII whitespace and the Unicode whitespace beyond ASCII, but not the separators U+001C to U+001F, which `\s` does match.

The round trip `int(str(n)) == n` is in module `IntRoundTrip`. Module `VersionRoundTrip` proves that the line the script writes reads back as the version it was written from. Module `Results` holds the `{code, message}` result records and the entries of the message table that the dispatcher uses.

**How the model represents the program.**
- The collaborators whose code is not modelled are function-valued fields of `LoadJsonMetadata.Collaborators`:
  - the schema checker;
  - the attribute lookup;
  - the list-to-string conversion;
  - the file writer;
  - the lineage payload generator;
  - the EDC client.
- The operations that call collaborators (`CreateMetafile`, `GenerateFileStructure`, `SendMetadata`, `ProcessLineageRequest`, `ProcessPhysicalEntityAndAttribute`) return a `Reply`: their outcome together with the trace of collaborator calls they made. `GenerateTransformations` calls none and returns only its result. `ProcessFile` returns a per-file verdict and `ProcessFiles` the state of the batch.
- Two Python exceptions are outcomes of their own, `Raised`: a `KeyError` on a missing document key, and the `TypeError` of joining a non-string `name` or `uid` to a log text. Either ends the batch, as an uncaught exception ends `process_files`.
- The message table is a parameter. `Messages.Valid` states the only thing the model assumes about it: "ok" is the only entry whose code is `OK`, and the other three codes differ.
- The version file is its text split at `'\n'`. Python's binary line iteration gives the same lines. The two readings differ only in the line break, which the strip at the start of every line removes, and in a final empty piece, which counts as blank.

**Behaviour the proofs make explicit.**
- **Association files always fail the batch.** `process_lineage_request` reports "undetermined" even when both generating and sending succeed. Under `Messages.Valid` "undetermined" is not OK, so every file classified as an association that passes the schema check fails the batch (`AssociationFilesNeverPass`).
- **`generate_transformations` only reports.** It returns "undetermined" whenever the `source_target_attribute_links` key is present, even for an empty list, and "ok" when it is absent. It never writes the transformation file its docstring announces (python/metadata_utilities/load_json_metadata.py:143); its loop only logs.
- **Its result is discarded.** The router computes the transformations result and then overwrites it with the lineage result, so it never reaches the batch.

## Model

| member | source | states |
|---|---|---|
| LoadJsonMetadata.Classify | python/metadata_utilities/load_json_metadata.py:118-134 | exactly the three routed tags are classified as routed, and the classification maps back to the tag it was read from |
| LoadJsonMetadata.CreateMetafile | python/metadata_utilities/load_json_metadata.py:56-73 | the header file is written, with the converted attribute list, exactly when the target is "local", and the writer's result is returned; any other target writes nothing and returns "not_implemented" |
| LoadJsonMetadata.GenerateFileStructure | python/metadata_utilities/load_json_metadata.py:34-54 | a missing `entity_type`, `name` or `uid` raises a KeyError for that key, and a non-string `name` or `uid` a TypeError, `name` before `uid`; a non-file entity returns "ok" without any call; a failed attribute lookup is returned unchanged; a successful one is followed by exactly the metafile creation for `name` with the attributes found, whose outcome is returned; a file is written exactly when the entity is a file, the lookup for its uid succeeded and the target is local; lineage is never reached |
| LoadJsonMetadata.GenerateTransformations | python/metadata_utilities/load_json_metadata.py:141-163 | "ok" when the links key is absent and "undetermined" whenever it is present, so the result is OK exactly when the key is absent |
| LoadJsonMetadata.SendMetadataToMetadataLake | python/metadata_utilities/load_json_metadata.py:202-204 | the metadata lake always answers not-OK, with the "not_implemented" code |
| LoadJsonMetadata.SendMetadata | python/metadata_utilities/load_json_metadata.py:187-200 | the EDC client is called, and its answer returned, exactly when the store is "edc"; "metadata_lake" gives "not_implemented"; any other store gives "unknown_metadata_target"; every store but "edc" gives a non-OK result |
| LoadJsonMetadata.ProcessLineageRequest | python/metadata_utilities/load_json_metadata.py:165-185 | the payload is generated first and nothing is written; a generation failure is returned without sending; a send failure is returned as is; success of both gives "undetermined", so the result is never OK |
| LoadJsonMetadata.ProcessPhysicalEntityAndAttribute | python/metadata_utilities/load_json_metadata.py:111-139 | unrouted classifications return "ok" with no collaborator call; `physical_entity` is exactly the metafile generator; both association tags are exactly the lineage pipeline; only `physical_entity` can write a file, and only the two association tags can reach lineage |
| LoadJsonMetadata.ProcessFile | python/metadata_utilities/load_json_metadata.py:91-107 | a file fails with the schema result exactly when the schema check is not OK; it passes exactly when the schema check and the routed operation are both OK; an exception escapes exactly when the routed operation raised; any recorded failure is non-OK |
| LoadJsonMetadata.ProcessFiles | python/metadata_utilities/load_json_metadata.py:75-109 | an OK overall result is always the one the batch started with, and a batch in which every file passes finishes with its starting result |
| LoadJsonMetadata.ConvertDirectory | python/metadata_utilities/load_json_metadata.py:206-211 | a fresh converter starts from "ok", so an OK batch result is "ok" itself, and a batch whose files all pass finishes with "ok" |
| LoadJsonMetadata.ConvertDirectoryOkIffNoFailure | python/metadata_utilities/load_json_metadata.py:96-109 | a batch that runs to the end reports OK exactly when no file failed its schema check or its routed operation |
| LoadJsonMetadata.ProcessFilesIsLastFailure | python/metadata_utilities/load_json_metadata.py:86-109 | when no exception escapes, the front-to-back loop equals the reference "last failure wins" definition read from the back |
| LoadJsonMetadata.ProcessFilesAbortsAtFirstFault | python/metadata_utilities/load_json_metadata.py:86-109 | the first file that raises ends the batch with that exception, and the overall result is the last failure among the files before it |
| LoadJsonMetadata.LastFailureIsOkIffNoFailure | python/metadata_utilities/load_json_metadata.py:100-105 | starting from OK, the folded result is OK exactly when no verdict is a failure, and is then the starting result |
| LoadJsonMetadata.LastFailureWins | python/metadata_utilities/load_json_metadata.py:100-105 | a failure with no later failure determines the folded result; earlier failures are forgotten |
| LoadJsonMetadata.AllFilesPassGivesOk | python/metadata_utilities/load_json_metadata.py:75-109 | when every file passes, the batch finishes with "ok" |
| LoadJsonMetadata.BatchResultIsLastFailure | python/metadata_utilities/load_json_metadata.py:96-109 | in a batch without exceptions, a failing file followed only by passing files determines the batch result; a later passing file never resets it |
| LoadJsonMetadata.ProcessFilesAppend | python/metadata_utilities/load_json_metadata.py:86-109 | processing `a + b` is processing `a` and then `b` from the state `a` left, and an exception in `a` ends the whole batch |
| LoadJsonMetadata.SecondRunKeepsFailure | python/metadata_utilities/load_json_metadata.py:75-109 | `overall_result` is never reset by `process_files`, so a second run after a failed one cannot report OK |
| LoadJsonMetadata.AssociationFilesNeverPass | python/metadata_utilities/load_json_metadata.py:165-185 | every association file that passes the schema check fails the batch |
| LoadJsonMetadata.ProcessFilesLoop | python/metadata_utilities/load_json_metadata.py:86-109 | the loop's overall result is "last failure wins" over all files, or, when a file raises, over the files before the first raising one; the loop ends exactly as the recursive `ProcessFiles` does |
| MuLogging.Route | python/metadata_utilities/mu_logging.py:67-78 | FATAL, ERROR, WARNING and INFO each go to their own logger method, and every other level goes to `debug` |
| MuLogging.DetermineLogLevel | python/metadata_utilities/mu_logging.py:40-62 | the custom level is always one of FATAL…VERBOSE; the Python level is the level of the method that custom level is routed to; a level name selects the level of that name, without a notice; any other name gives DEBUG with the notice "invalid log level >name< in config.json. Defaulting to DEBUG" |
| MuLogging.Log | python/metadata_utilities/mu_logging.py:64-78 | a logger call is made exactly when the level is at most the configured one; it carries `caller - msg`; it records at Python level 10·(6−level) for FATAL…INFO and at DEBUG otherwise |
| MuLogging.LevelNameRoundTrip | python/metadata_utilities/mu_logging.py:40-58 | level names and custom levels determine each other, without a notice |
| MuLogging.ThresholdAgreesWithLogger | python/metadata_utilities/mu_logging.py:34-78 | for every configured name and custom level, Python's logger records the message exactly when it passes the custom threshold |
| MuLogging.RouteMonotone | python/metadata_utilities/mu_logging.py:64-78 | a more severe custom level is never routed to a method with a lower Python level |
| MuLogging.VerboseAdmitsAllFatalOnlyFatal | python/metadata_utilities/mu_logging.py:41-65 | under VERBOSE every custom level is passed on; under FATAL only FATAL is |
| MuLogging.LevelBelowFatalGoesToDebug | python/metadata_utilities/mu_logging.py:34-78 | under every configured name, a level below FATAL passes the custom threshold and goes to `debug`, so Python's logger records it exactly when it is set to DEBUG |
| PyText.StripIsMiddle | python/setup.py:17 | the stripped text is the slice between a strippable prefix and a strippable suffix |
| PyText.StripOf | python/setup.py:17 | strippable text around a middle whose ends are not strippable comes off, leaving exactly the middle |
| PyText.StripKeeps | python/setup.py:17 | a text whose ends are not strippable is unchanged |
| PyText.Split | python/setup.py:26 | at least one piece, no piece contains the separator, and joining the pieces with it gives back the text |
| PyText.SplitJoin | python/setup.py:26 | splitting undoes joining when no part contains the separator |
| PyText.NatToString | python/setup.py:28 | the decimal text is non-empty, all digits, spells the number, and has no leading zero |
| IntRoundTrip.IntToStringSpells | python/setup.py:28 | `str(n)` spells the value of `n`: its digits are worth `n` (or `-n` after the minus), with no leading zero except in "0" |
| IntRoundTrip.ParseDigits | python/setup.py:27 | `int()` reads a run of digits as its value, leading zeros included |
| IntRoundTrip.ParseIntMeaning | python/setup.py:27 | `int()` succeeds with `n` exactly when the text is `int()`-whitespace, an optional sign, digit groups joined by single underscores, and `int()`-whitespace, and the signed value of the digits is `n` |
| IntRoundTrip.SeparatorIsNotIntSpace | python/setup.py:27 | `int()` rejects every run of digits followed by any of U+001C to U+001F, although the pattern's `\s` matches each of those separators |
| IntRoundTrip.IntToStringRoundTrip | python/setup.py:27-28 | `int(str(n)) == n` for every integer |
| VersionBump.SpaceRunMeaning | python/setup.py:13 | each greedy `\s+` run of the pattern covers only whitespace and stops at the end of the line or at the first character that is not whitespace |
| VersionBump.MatchAtMeaning | python/setup.py:13 | the pattern matches at a position with group `g` exactly when `__version__`, one or more whitespace characters, `=` and one or more whitespace characters start there, and `g` is the rest of the line after all the whitespace following `=` |
| VersionBump.SearchIsLeftmost | python/setup.py:23 | the search finds `g` exactly when `g` is the group of the leftmost position at which the pattern matches |
| VersionBump.SearchFindsNothing | python/setup.py:23 | the search finds nothing exactly when the pattern matches at no position |
| VersionBump.ClassifyLineMeaning | python/setup.py:17-23 | after the ASCII strip, a line is blank, a comment, a candidate with the group the search finds, or a non-match exactly in the four cases the script tells apart |
| VersionBump.ParseVersionMeaning | python/setup.py:24-27 | a parsed version is three dot-free parts whose dot-join is the unquoted group, and its fix number is what `int()` makes of the third part; the part-count failure happens exactly when the unquoted group does not split into three parts; any other failure carries the third of exactly three parts, which `int()` rejects |
| VersionBump.ParseVersionOf | python/setup.py:24-27 | conversely, an unquoted group that is the dot-join of three dot-free parts whose third `int()` reads as n parses as exactly those parts with fix number n |
| VersionBump.StepMeaning | python/setup.py:17-32 | a line is skipped exactly when it is blank or a comment; a non-matching line raises; a line sets a version exactly when its group parses, and then it is the one with the fix number plus one; an unparsable group raises its error |
| VersionBump.RunSetupMeaning | python/setup.py:15-32 | on the lines of a version file: without a raising line, the last line that sets a version is passed on and is in the temporary file, or the script fails on the undefined version; otherwise the first raising line ends the run, with the temporary file as the lines before it wrote it |
| VersionBump.Loop | python/setup.py:15-32 | a finished run leaves the temporary file holding exactly the written line of its version, and a file without any version line fails with nothing written |
| VersionBump.LastQualifyingLineWins | python/setup.py:15-36 | without errors, the version of the last qualifying line is passed on and is the one in the temporary file; with no qualifying line the script fails on the undefined version |
| VersionBump.FirstStopCrashes | python/setup.py:15-32 | the first line that raises ends the run with its error, and the temporary file keeps the version of the last qualifying line before it |
| VersionBump.SkippedLinesDoNotMatter | python/setup.py:16-22 | blank and comment lines can be removed anywhere without changing the run |
| VersionRoundTrip.RerunBumpsAgain | python/setup.py:26-32 | running the script on the temporary file it wrote bumps the fix number once more: the written line reads back as the version it was written from |
| VersionRoundTrip.NewVersionMeaning | python/setup.py:26-28 | the bumped version splits back into the parsed main and sub parts and a fix part that `int()` reads as the fix number plus one |
| VersionRoundTrip.WrittenLineClassified | python/setup.py:17-31 | the written line survives the strip, is not a comment, and matches the pattern with the quoted version as its group |
| VersionRoundTrip.WrittenVersionParses | python/setup.py:25-28 | the quoted written version unquotes, splits and parses back into the parts it was rendered from, and bumping it renders the next fix number |
| VersionRoundTrip.WrittenLineSteps | python/setup.py:23-31 | a line whose group is the quoted rendered version sets the version with the fix number plus one |
| VersionRoundTrip.LeadingZerosDropped | python/setup.py:26-28 | leading zeros of the fix number are dropped: "1.2.07" becomes "1.2.8" |

## Left out

- File I/O is not modelled. This covers reading and re-reading the JSON files (including `generate_file_structure` reading `self.json_file` a second time, modelled as the same document), JSON parsing errors, and writing the version file. Documents arrive parsed; the order of `glob.glob` is the order of the sequence.
- The schema checker, the attribute lookup, list-to-string conversion, the file writer, lineage payload generation and the EDC client are not modelled. They are function parameters; their code is not part of this model.
- The message table's text is not modelled; `Messages.Valid` states what is assumed of its codes.
- LoadJsonMetadata.SendMetadata: the EDC client is modelled as a function of the classification and the document. In the program it sends what the lineage client generated and kept in its own state; the model does not carry that state.
- LoadJsonMetadata.GenerateTransformations: the links are typed records. The `KeyError` or `TypeError` that a malformed link raises while it is logged is not modelled.
- Log output itself is not modelled: the logger, its handlers, the log path built from the clock, `area`, the Azure `code_version` and every log line the converter writes. `MuLogging.Log` gives the call that would be made; `Recorded` gives whether the handlers see it.
- The `print` of the invalid-level notice is modelled as the returned notice text.
- MuLogging.Log: the default arguments of `log` are not modelled, so `Log` always takes level, message and caller. The two-argument calls at python/metadata_utilities/load_json_metadata.py:154-161 get the default caller "undetermined" (python/metadata_utilities/mu_logging.py:64); such a call corresponds to `Log` with that caller. No call in the program relies on the default level or message.
- `setuptools.setup` and reading the long description are not modelled. The run's result is the version that would be handed to `setup`.
- IntRoundTrip.ParseIntMeaning: `int()` accepts any Unicode decimal digit, such as `٧` (ARABIC-INDIC DIGIT SEVEN). The model reads only `0`-`9`, so it rejects a text that `int()` accepts.
- VersionBump.ParseVersionMeaning: for the same reason, the program bumps `__version__ = "1.2.٧"` to `1.2.8`, while the model reports that the fix part is not a number.
- IntRoundTrip.ParseDigits: CPython 3.11 and later (and the security releases of 3.7 to 3.10) refuse `int()` of a text with more than 4300 digits. The model reads digit runs of any length.
- IntRoundTrip.ParseIntMeaning: the same 4300-digit limit is not modelled.
- IntRoundTrip.IntToStringRoundTrip: the same CPython releases refuse `str()` of a number with more than 4300 digits. The round trip is proved for every integer.
- UTF-8 decoding errors are not modelled; lines are text.
- The temporary file's content is modelled as the last written line. Each write truncates the file, so that is all the file holds.
