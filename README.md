# v — a Dafny model of the file viewer and its helper libraries

`v` is a small Ruby command-line launcher. You pass it file names and
optional flags such as `+3db` or `1.5x`. For each file that exists, it:

1. asks the desktop for the file's MIME type;
2. looks up the application registered for that type in the freedesktop
   stores (`mimeapps.list` under "Default Applications", `mimeinfo.cache`
   under "MIME Cache");
3. turns the desktop entry into a command line, adds audio and speed flags
   for mplayer, fills in the `%F`/`%U`/`%i`/`%c` placeholders, and runs the
   command.

Two libraries come with it:

- `MimeHelpers` holds the same lookup as a reusable mix-in.
- `ArgumentParser` loads layered INI-style configuration files. It
  deep-merges them, compiles the patterns under the `controls` section, and
  sorts command-line words into named options and existing files.

This project models those three files as Dafny definitions and proves what
they guarantee:

| file | module | kind |
|---|---|---|
| `lib/mime-helpers.rb` | `MimeHelpers` | functions and lemmas |
| `lib/argument-parser.rb` | `ArgumentParser` | functions; methods for the loops and the recursive in-place merge |
| `v.rb` | `Viewer` | functions; the class `FileViewer` with its fields `args` and `launched` |

Supporting modules:

- `Wrappers`: `Option`, plus `Attempt` for a call that returns or raises.
- `Seqs`: `compact`/`map`-style folds over sequences.
- `Text`: Ruby's `split`, `gsub` with a literal pattern, `String#[]`, and
  line-anchored matching.
- `ParsedConfig`: a parsed configuration file as an ordered association
  list, which is what a Ruby `Hash` is.
- `Host`: the file system seen as data.

## How the host is modelled

The file system, the parsed contents of configuration files and
`File.expand_path` are fields of an `Env` value:

- `existing` is the set of existing paths;
- `parsed` maps each readable path to its `ParseConfig` parameters;
- `expand` is the path expansion function.

`ParseConfig.new` on a path that is not in `parsed` raises.

MIME detection by `xdg-mime` and `file --mime` becomes a function parameter
`mimeOf`. The commands `v.rb` would run with backticks are not executed. They
are recorded, in order, in the field `FileViewer.launched`.

A Ruby exception that escapes a method is the value `Raised`. Inside
`getRunnerMetaFromConfig`'s `begin … rescue` such an exception becomes
`nil` (`None`).

`ArgumentParser` matches each control's regular expression against the
downcased word. That match is a function parameter
`m: (pattern, word) -> Option<match>`, so the model holds for any regular
expression engine.

## Semantics followed

What the code does, and the model with it:

- mplayer's `-af volume=…dB,scaletempo -speed …` flags are appended at the
  end of the command line (`lib/mime-helpers.rb:133`, `v.rb:112`);
- only the first `;`-separated desktop id of a MIME entry is used
  (`lib/mime-helpers.rb:78`, `v.rb:92`);
- the only sections read are "Default Applications" of `mimeapps.list` and
  "MIME Cache" of `mimeinfo.cache` (`lib/mime-helpers.rb:102-114`,
  `v.rb:100-106`). The candidate ids are taken in file order, with no
  filtering or sorting.

Ruby details kept explicit:

- `String#split` drops trailing empty fields. `apps.split(";")[0]` is `nil`
  when the entry consists only of `;`. In `v.rb` that `nil` reaches a string
  concatenation in `getMimeRunnerFor` and raises. In `lib/mime-helpers.rb`,
  `getRunnerMetaFromConfig` returns that `nil` at line 78 without raising,
  and `getRunnerFromConfig` then returns `nil` at line 89.
- The `.` in `/.desktop$/` matches any character except a newline. `$`
  matches before every newline, so the desktop suffix is removed on every
  line of the id.
- `gsub` with a literal pattern replaces left to right without overlaps,
  and each pass sees the output of the previous pass. A file name
  containing `%c` is therefore replaced by the caption.
- `v.rb` replaces `%F` and `%U` but not `%u`. `lib/mime-helpers.rb` also
  replaces `%u`.
- In `deep_merge`, `b[k] ||= {}` keeps an existing scalar. Merging a section
  into a scalar then runs `String#[]=` with a string index, which replaces
  the first occurrence of the key by the value. It raises `IndexError` when
  the key does not occur in the string.
- Assigning to an existing `Hash` key keeps that key's position. A new key
  goes at the end.

## Model

| member | source | states |
|---|---|---|
| Wrappers.OrElse | lib/mime-helpers.rb:21-23 | Ruby `or` of two lookups: an exception in the first propagates, a non-nil first wins, and a nil first gives the second |
| Seqs.FilterMap | lib/argument-parser.rb:33 | the compacted results are never more than the inputs; they are as many exactly when every input is accepted; each one is the transform of some input |
| Seqs.Rejected | lib/argument-parser.rb:34 | the compacted leftovers are inputs the block rejected |
| Seqs.RejectedComplete | lib/argument-parser.rb:29-34 | every rejected input appears among the leftovers |
| Seqs.PartitionSizes | lib/argument-parser.rb:28-35 | matched plus unmatched words account for every argument exactly once |
| Seqs.FilterMapAppend | lib/argument-parser.rb:29-33 | collecting matches distributes over concatenation of the argument list |
| Seqs.RejectedAppend | lib/argument-parser.rb:29-34 | collecting leftovers distributes over concatenation of the argument list |
| Seqs.Compact | v.rb:14 | `compact` never lengthens a list |
| Seqs.Map | v.rb:12-13 | `map` keeps the length and applies the block pointwise |
| Seqs.CompactMap | v.rb:11-15 | `map{…}.compact` is the filter-and-transform of the arguments |
| Seqs.FilterMapPointwise | lib/argument-parser.rb:29-33 | two blocks that agree on every argument collect the same matches |
| Seqs.RejectedTwice | lib/argument-parser.rb:37-42 | filtering the leftovers twice equals one filter by a block that rejects what both reject |
| Seqs.FilterMapOfRejected | lib/argument-parser.rb:37-42 | the matches among earlier leftovers are the matches of a block that first checks the earlier rejection |
| Text.Join | lib/mime-helpers.rb:57 | Ruby's `join(c)`; `Text.JoinSplitAll` proves it undoes the split |
| Text.RubySplit | lib/mime-helpers.rb:55 | Ruby's `split(c)`: no field contains the separator and the last field is never empty |
| Text.ReplaceAll | lib/mime-helpers.rb:32-37 | `gsub` with a literal pattern, scanning left to right without overlaps; its length, fixed points and effect on templates are the lemmas below |
| Text.SplitAll | lib/mime-helpers.rb:55 | splitting yields at least one field and no field contains the separator |
| Text.JoinSplitAll | lib/mime-helpers.rb:55-57 | joining the fields with the separator restores the string |
| Text.DropTrailingEmpty | lib/mime-helpers.rb:55 | Ruby's `split` keeps a prefix of the fields whose last field is non-empty |
| Text.StripTrailing | lib/mime-helpers.rb:55 | stripping trailing separators leaves a prefix not ending in the separator |
| Text.Before | lib/mime-helpers.rb:78 | the text before the first separator is a separator-free prefix followed by the separator or the end |
| Text.SplitAllFirst | lib/mime-helpers.rb:78 | the first field is the text before the first separator |
| Text.SplitAllRest | lib/mime-helpers.rb:55-56 | there are two or more fields exactly when the separator occurs, and later fields split the remainder |
| Text.SplitAllAllEmpty | lib/mime-helpers.rb:78 | every field is empty exactly when the string is made only of separators |
| Text.DropTrailingEmptyNil | lib/mime-helpers.rb:78 | dropping trailing empty fields gives nothing exactly when all fields are empty |
| Text.SplitAllSnocSep | lib/mime-helpers.rb:55 | appending a separator appends an empty field |
| Text.SplitAllSnocOther | lib/mime-helpers.rb:55 | appending another character extends the last field |
| Text.RubySplitStripped | lib/mime-helpers.rb:55 | Ruby's `split` equals splitting the string without its trailing separators |
| Text.RubySplitFirst | lib/mime-helpers.rb:78 | `split(";")[0]` is nil exactly when the string is all `;`, and is otherwise the text before the first `;` |
| Text.RubySplitTwoFields | lib/mime-helpers.rb:56 | `split("-")` has at least two fields exactly when a `-` remains once trailing `-` are stripped |
| Text.ReplaceAllLength | lib/mime-helpers.rb:32-37 | a longer replacement lengthens the string by at least one per occurrence, a shorter one shortens it by at least one per occurrence, and one of equal length keeps the length |
| Text.ReplaceAllLengthExact | lib/mime-helpers.rb:32-37 | the length changes by exactly the number of replaced occurrences times the difference between the replacement's length and the pattern's length |
| Text.CountPositive | lib/mime-helpers.rb:32-37 | a pattern is counted exactly when it occurs |
| Text.ReplaceAllAbsent | lib/mime-helpers.rb:32-37 | `gsub` of an absent pattern leaves the string unchanged |
| Text.ReplaceAllNoCount | lib/mime-helpers.rb:32-37 | `gsub` with no occurrences leaves the string unchanged |
| Text.ReplaceAllUnchanged | lib/mime-helpers.rb:32-37 | with a replacement of different length, `gsub` leaves the string unchanged exactly when the pattern does not occur |
| Text.FirstAt | lib/argument-parser.rb:67 | the position `String#[]=` with a string index writes at: the first occurrence of the key, nil exactly when there is none |
| Text.ReplaceFirst | lib/argument-parser.rb:67 | `String#[]=` with a string index splices the value in at the first occurrence of the key |
| Text.NotOccursFirst | lib/mime-helpers.rb:32-37 | a pattern whose first character is absent does not occur |
| Text.NotOccursPair | v.rb:125-129 | a two-character pattern occurs only where its two characters are adjacent |
| Text.ReplaceAllSkip | lib/mime-helpers.rb:32-37 | `gsub` passes unchanged over a prefix free of the pattern's first character |
| Text.ReplaceAllFront | lib/mime-helpers.rb:32-37 | `gsub` replaces a leading occurrence and continues after it |
| Text.ReplaceAllWithout | lib/mime-helpers.rb:32-37 | without the pattern's first character the string is unchanged |
| Text.OneLine | v.rb:52 | a string without a newline is a single line for `^`/`$` |
| Text.ReplaceAllPair | lib/mime-helpers.rb:33-37 | a `%x` pair other than the pattern is copied through and the pass continues behind it |
| Text.ReplaceAllTemplate | lib/mime-helpers.rb:33-37 | on text made of `%`-free pieces and two-character placeholders, one pass replaces exactly the placeholders equal to the pattern and keeps every other piece |
| Text.SubstTemplate | lib/mime-helpers.rb:33-37 | a pass whose replacement has no `%` leaves such a template a template |
| Text.ReplaceAllOtherPair | lib/mime-helpers.rb:36-37 | a `%` followed by a different letter is kept by the `%x` passes |
| ParsedConfig.Get | lib/mime-helpers.rb:76 | `hash[k]` is nil exactly when no pair has key `k`, and is otherwise a value stored under `k` |
| ParsedConfig.Put | lib/argument-parser.rb:67 | `hash[k] = v` makes `k` read `v`, changes no other key, keeps the key order, and appends a new key at the end |
| ParsedConfig.LastGet | lib/argument-parser.rb:62-68 | the value a sequence of assignments leaves last for `k`; nil exactly when `k` is never assigned |
| ParsedConfig.PutAll | lib/argument-parser.rb:62-68 | the pairs assigned one after another; what each key then reads is `ParsedConfig.PutAllGet` |
| ParsedConfig.PutAllGet | lib/argument-parser.rb:62-68 | after assigning a list of pairs, a key reads its last assigned value, or its old value when it was not assigned |
| ParsedConfig.Index | lib/mime-helpers.rb:76 | `params[key][mime]` raises when the section is missing, looks the key up in a section, and applies `String#[]` to a scalar |
| Host.ParseFile | lib/mime-helpers.rb:75 | a configuration file only parses when it exists |
| MimeHelpers.VendorPath | lib/mime-helpers.rb:55-57 | the vendor-directory reading of an id; its shape is `MimeHelpers.VendorPathShape` |
| MimeHelpers.VendorPathShape | lib/mime-helpers.rb:55-57 | the vendor fallback exists exactly when the id splits into two or more fields, and is the text before the first `-`, then `/`, then the rest without trailing `-` |
| MimeHelpers.VendorOfFields | lib/mime-helpers.rb:57 | the first field, `/`, and the other fields rejoined by `-` turn the first `-` of the id into `/` |
| MimeHelpers.DesktopPath | lib/mime-helpers.rb:51-59 | the direct path when it exists; otherwise the vendor fallback when the id has one, and the direct path when it has none |
| MimeHelpers.MimeRunnerFor | lib/mime-helpers.rb:50-64 | nil when no desktop file is found; raises exactly when the found file does not parse or lacks a "Desktop Entry" section; when the found file parses, the result is that section's `Exec` lookup |
| MimeHelpers.StripDesktop | lib/mime-helpers.rb:68 | `gsub(/.desktop$/,"")` applied on every line; on one line it is `MimeHelpers.StripDesktopOneLine` |
| MimeHelpers.GuessMimeRunnerFor | lib/mime-helpers.rb:67-69 | the stripped id followed by ` %F `; `MimeHelpers.GuessFromDesktopName` and `MimeHelpers.GuessKeepsOtherIds` state its results |
| MimeHelpers.StripDesktopOneLine | lib/mime-helpers.rb:68 | on a one-line id, `gsub(/.desktop$/,"")` removes the final eight-character `.desktop` suffix |
| MimeHelpers.GuessFromDesktopName | lib/mime-helpers.rb:66-69 | the guess for `name.desktop` strips the suffix and is `name %F ` |
| MimeHelpers.GuessKeepsOtherIds | lib/mime-helpers.rb:67-69 | an id that does not end in `desktop` is kept as it is, followed by ` %F ` |
| MimeHelpers.Apps | lib/mime-helpers.rb:75-76 | reading the entry raises exactly when the file cannot be parsed or lacks the section; otherwise it is the `mime` lookup in that section |
| MimeHelpers.FirstField | lib/mime-helpers.rb:78 | the first listed id is nil exactly when the entry is all `;`, and otherwise the text before the first `;` |
| MimeHelpers.RunnerMetaFromConfig | lib/mime-helpers.rb:73-82 | an id is found exactly when the entry exists and holds a non-`;` character, and it is the first `;`-field; every exception is rescued |
| MimeHelpers.RunnerFromConfig | lib/mime-helpers.rb:87-100 | nil exactly when no id is found; otherwise the desktop entry's runner if it resolves, and the guess if it does not |
| MimeHelpers.RunnerFromMimeinfoCache | lib/mime-helpers.rb:102-107 | nil exactly when both the user's and the system's `mimeinfo.cache` give nil, and the user's answer wins when it has one |
| MimeHelpers.RunnerFromMimeappList | lib/mime-helpers.rb:109-114 | nil exactly when both the user's and the system's `mimeapps.list` give nil, and the user's answer wins when it has one |
| MimeHelpers.FirstHit | lib/mime-helpers.rb:21-23 | a chain of `or` lookups; `MimeHelpers.FirstHitNil`, `FirstHitIsFirst` and `FirstHitIgnoresLater` state its results |
| MimeHelpers.GetRunner | lib/mime-helpers.rb:20-26 | nil exactly when both the mimeapps lists and the mimeinfo caches give nil; raises exactly when the lists raise, or give nil and the caches raise |
| MimeHelpers.Lookups | lib/mime-helpers.rb:102-114 | the four lookups in order: local mimeapps.list, system mimeapps.list, local mimeinfo.cache, system mimeinfo.cache |
| MimeHelpers.FirstHitNil | lib/mime-helpers.rb:21-23 | a chain of `or` lookups is nil exactly when every link is nil |
| MimeHelpers.FirstHitIsFirst | lib/mime-helpers.rb:21-23 | a non-nil chain is the value of one of its links |
| MimeHelpers.FirstHitIgnoresLater | lib/mime-helpers.rb:21-23 | lookups after a non-nil one are never consulted |
| MimeHelpers.GetRunnerSearchesStores | lib/mime-helpers.rb:20-26 | getRunner is the tweaked result of the first non-nil store lookup |
| MimeHelpers.GetRunnerNil | lib/mime-helpers.rb:20-24 | getRunner is nil exactly when all four stores have no answer |
| MimeHelpers.GetRunnerFirstStore | lib/mime-helpers.rb:20-26 | when store `i` is the first with an answer, getRunner is that answer tweaked |
| MimeHelpers.FillPasses | lib/mime-helpers.rb:32-37 | successive `gsub` passes, each over the previous one's output |
| MimeHelpers.PassToken | lib/mime-helpers.rb:32-37 | what one piece of a template becomes after the passes |
| MimeHelpers.FillPassesTemplate | lib/mime-helpers.rb:32-37 | passes of `%`-placeholders whose replacements have no `%` act piece by piece on a template: the text between placeholders is kept and no replacement is rescanned |
| MimeHelpers.FillPassesUntouched | lib/mime-helpers.rb:32-37 | a runner without any placeholder comes out of the passes unchanged |
| MimeHelpers.FillTokens | lib/mime-helpers.rb:33-37 | the five placeholder passes have non-empty patterns |
| MimeHelpers.FillRunnerArgs | lib/mime-helpers.rb:31-39 | the five passes in order; `MimeHelpers.FillRunnerArgsTemplate` states the result for any runner |
| MimeHelpers.FilledToken | lib/mime-helpers.rb:33-37 | the value each placeholder stands for: the quoted file for `%F`, `%U` and `%u`, the icon for `%i`, the caption for `%c` |
| MimeHelpers.QuotedPlain | lib/mime-helpers.rb:33 | quoting a file name without `%` adds no `%` |
| MimeHelpers.PassTokenFill | lib/mime-helpers.rb:33-37 | the five passes send every piece to its filled value |
| MimeHelpers.FillRunnerArgsTemplate | lib/mime-helpers.rb:31-39 | for any runner of `%`-free text and placeholders, and a file, icon and caption without `%`, every `%F`, `%U`, `%u`, `%i` and `%c` is replaced by its value, and all other text and placeholders are kept |
| MimeHelpers.FillRunnerArgsUntouched | lib/mime-helpers.rb:31-39 | a runner with none of `%F %U %u %i %c` is returned unchanged |
| MimeHelpers.ReplaceOnlyF | lib/mime-helpers.rb:33 | the `%F` pass puts the replacement in place of the only `%F` |
| MimeHelpers.FillRunnerArgsOnePlaceholder | lib/mime-helpers.rb:31-39 | a single `%F` in an otherwise `%`-free runner becomes the quoted file name |
| MimeHelpers.FillAfterFWithC | lib/mime-helpers.rb:34-37 | after the `%F` pass, a lone `%c` survives the `%U`, `%u`, `%i` passes and is replaced by the caption |
| MimeHelpers.FillRunnerArgsResubstitutes | lib/mime-helpers.rb:32-37 | a file named `%c` is replaced again by the caption, because each pass sees the previous one's output |
| MimeHelpers.GetFirstOr | lib/mime-helpers.rb:120-124 | the first element of a non-empty list, otherwise the alternative |
| MimeHelpers.MplayerAtStart | lib/mime-helpers.rb:130 | a runner starting with `mplayer` matches `/^mplayer/` |
| MimeHelpers.TweakRunner | lib/mime-helpers.rb:129-136 | an mplayer runner gets the volume and speed flags from the first db and factor, other runners are unchanged |
| MimeHelpers.TweakRunnerChanges | lib/mime-helpers.rb:129-136 | the runner changes exactly when it matches `/^mplayer/`, and the original always remains a prefix |
| MimeHelpers.TweakRunnerDefaults | lib/mime-helpers.rb:129-136 | without db and factor flags the defaults `+0` and `1.0` are used |
| ArgumentParser.TaggedColumns | lib/argument-parser.rb:29-34 | the compacted columns of the tagged list are the matches and the leftovers |
| ArgumentParser.GetArgs | lib/argument-parser.rb:28-35 | returns the transformed matches and the unmatched words in order, together exactly as many as the arguments |
| ArgumentParser.Parse | lib/argument-parser.rb:21-55 | each control holds the matches among the words earlier controls left; `files` holds the leftovers that exist, or `["."]` when nothing is left |
| ArgumentParser.Rest | lib/argument-parser.rb:37-42 | the words the controls leave over: never more than the arguments, and each one an argument |
| ArgumentParser.OptsAfter | lib/argument-parser.rb:37-42 | `opts` after the controls have run; what each control holds is `ArgumentParser.ControlClaims` |
| ArgumentParser.OptsAfterNames | lib/argument-parser.rb:37-38 | every control has an entry in `opts`, even when nothing matched it |
| ArgumentParser.Owner | lib/argument-parser.rb:37-42 | a word is claimed by the first control whose pattern matches it, and is unclaimed exactly when none matches |
| ArgumentParser.RestIsUnowned | lib/argument-parser.rb:37-42 | the words left after all controls are exactly the unclaimed ones |
| ArgumentParser.FilterNothing | lib/argument-parser.rb:37 | with no controls every word is left over |
| ArgumentParser.ControlClaimsLast | lib/argument-parser.rb:37-42 | the last control receives the matches of words no earlier control claimed |
| ArgumentParser.OwnedMatchSnoc | lib/argument-parser.rb:37-42 | a later control does not change which words an earlier control claims |
| ArgumentParser.ControlClaims | lib/argument-parser.rb:37-42 | with distinct names, control `i` holds exactly the matches of the words it owns |
| ArgumentParser.ParseFiles | lib/argument-parser.rb:44-52 | `files` is `["."]` when no word is unclaimed, otherwise the unclaimed words that exist; a word is unclaimed exactly when it is an argument no control matches |
| ArgumentParser.Assign | lib/argument-parser.rb:67 | `b[k] = v` stores into a section; into a scalar it is `String#[]=`, the scalar with its first `k` replaced by `v`, and raises exactly when `k` does not occur |
| ArgumentParser.MergeValue | lib/argument-parser.rb:62-68 | the value `b[k]` reaches when the pairs of a section are merged into it; `ArgumentParser.MergeValueSection` and `MergeValueRaisedPrefix` state its results |
| ArgumentParser.MergeEntry | lib/argument-parser.rb:62-68 | one key of `a` merged into `b`: a scalar never raises, a merged key is present afterwards, and no other key changes |
| ArgumentParser.Merge | lib/argument-parser.rb:61-70 | deep_merge as a function of the two hashes; `ArgumentParser.DeepMerge` computes it and the lemmas below state its results |
| ArgumentParser.Target | lib/argument-parser.rb:64 | the conditional assignment of `{}` keeps an existing value and otherwise starts an empty section |
| ArgumentParser.MergeValueRaisedPrefix | lib/argument-parser.rb:62-68 | once an assignment raises, the rest of the merge is abandoned with that exception |
| ArgumentParser.MergeRaisedPrefix | lib/argument-parser.rb:61-70 | an exception while merging an earlier key aborts the whole merge |
| ArgumentParser.MergeSection | lib/argument-parser.rb:65 | the recursive merge of a section into its target, stopping at the first exception |
| ArgumentParser.DeepMerge | lib/argument-parser.rb:61-70 | merges every key of `a` into `b` in order, recursing into sections |
| ArgumentParser.MergeValueSection | lib/argument-parser.rb:63-65 | merging into a section assigns every pair in order and never raises |
| ArgumentParser.MergeScalarWins | lib/argument-parser.rb:66-68 | a key whose last value in `a` is a scalar reads that scalar afterwards |
| ArgumentParser.MergeKeepsAbsent | lib/argument-parser.rb:61-70 | keys that `a` does not mention keep their value in `b` |
| ArgumentParser.MergeSectionEntry | lib/argument-parser.rb:63-65 | a section of `a` ends up as its pairs merged into the old value or a fresh section |
| ArgumentParser.MergeScalarsOnly | lib/argument-parser.rb:61-70 | a flat hash merges by plain assignment of each pair |
| ArgumentParser.MergeScalarStep | lib/argument-parser.rb:66-68 | one more scalar pair is one more plain assignment |
| ArgumentParser.ConfigPaths | lib/argument-parser.rb:8-11 | the default configuration file is loaded first, then the given files in order |
| ArgumentParser.ParseAll | lib/argument-parser.rb:11-14 | loading succeeds exactly when every file parses, giving their parameters in order |
| ArgumentParser.MergeAll | lib/argument-parser.rb:14 | the parsed files merged into the configuration in order |
| ArgumentParser.MergeAllRaisedPrefix | lib/argument-parser.rb:14 | an exception while merging one file aborts the loading |
| ArgumentParser.MergeAllNext | lib/argument-parser.rb:14 | merging the next file extends the merged configuration, and a raise there ends the loading |
| ArgumentParser.LaterFileWins | lib/argument-parser.rb:14 | a scalar set by file `j` and mentioned by no later file is the merged value |
| ArgumentParser.ControlsOf | lib/argument-parser.rb:74-78 | the controls compile exactly when `controls` is a section, giving one control per entry with its name and pattern |
| ArgumentParser.ParseConfigKeys | lib/argument-parser.rb:74-78 | the loop over the `controls` section computes the control list, and raises when the section is missing or a scalar |
| ArgumentParser.LoadParams | lib/argument-parser.rb:8-14 | the default file and the given files, parsed and merged in order |
| ArgumentParser.LoadConfig | lib/argument-parser.rb:7-19 | the loaded parameters with their compiled controls; `ArgumentParser.Initialize` computes it |
| ArgumentParser.Initialize | lib/argument-parser.rb:7-19 | the loaded configuration is the merge of the default file and the given files, with its compiled controls |
| ArgumentParser.LoadLaterFileWins | lib/argument-parser.rb:8-14 | a scalar set by configuration file `j` (the default file is number 0) and mentioned by no later file is the loaded value |
| Viewer.GetArgs | v.rb:11-15 | the transformed arguments the block accepts, in order |
| Viewer.FirstMatch | v.rb:52 | the result of the first line the pattern matches, and nil exactly when no line matches |
| Viewer.DbToken | v.rb:51-54 | the db word of an argument; `Viewer.DbTokenRoundTrip` and `DbTokenExact` state its results |
| Viewer.FactorToken | v.rb:56-59 | the factor word of an argument; `Viewer.FactorTokenRoundTrip` and `FactorTokenExact` state its results |
| Viewer.DbTokenRoundTrip | v.rb:51-54 | `+3dB` (either sign, any digits, any case of `db`) yields the signed number |
| Viewer.DbTokenExact | v.rb:51-54 | a one-line word yields a db value only when it is exactly sign, digits, `db` |
| Viewer.DigitsNoDot | v.rb:57 | digit strings contain no dot and no newline |
| Viewer.BeforeSeparated | v.rb:57 | the text before the first dot of `x.y`, where `x` has no dot, is `x` |
| Viewer.FactorTokenRoundTrip | v.rb:56-59 | `1.5x` (either case of `x`) yields the factor `1.5` |
| Viewer.FactorTokenExact | v.rb:56-59 | a one-line word yields a factor only when it is exactly digits, `.`, digits, `x` |
| Viewer.GuessRunner | v.rb:84-86 | the stripped id followed by ` %U `; `Viewer.GuessRunnerFromDesktopName` states its result |
| Viewer.GuessRunnerFromDesktopName | v.rb:84-86 | the guess for `name.desktop` is `name %U ` |
| Viewer.RunnerFromConfig | v.rb:88-98 | nil when the entry is missing; raises on an unreadable file, a missing section or an all-`;` entry; otherwise the desktop entry's runner or the guess, never nil |
| Viewer.FromLocalMimeappList | v.rb:104-106 | the runner from the user's `mimeapps.list` under "Default Applications" |
| Viewer.FromMimeinfo | v.rb:100-102 | the runner from the system's `mimeinfo.cache` under "MIME Cache" |
| Viewer.AdjustRunner | v.rb:108-115 | an mplayer runner gets the flags from the first db (`+0`) and factor (`1.0`) as `getFirstOr` of v.rb:5-9 picks them; others are unchanged |
| Viewer.Runner | v.rb:117-121 | the adjusted first answer of the two stores; `Viewer.RunnerOrder` states the order |
| Viewer.RunnerOrder | v.rb:117-121 | the local mimeapps.list wins, the system mimeinfo.cache is consulted only on nil, and the runner is nil only when both are |
| Viewer.FillTokens | v.rb:125-129 | the four passes of fillRunnerArgs have non-empty patterns |
| Viewer.FillRunnerArgs | v.rb:124-132 | the four passes in order; `Viewer.FillRunnerArgsTemplate` states the result for any runner |
| Viewer.FilledToken | v.rb:125-129 | the value each placeholder stands for: the quoted file for `%F` and `%U`, the icon for `%i`, the caption for `%c`; `%u` stands for itself |
| Viewer.PassTokenFill | v.rb:125-129 | the four passes send every piece to its filled value |
| Viewer.FillRunnerArgsTemplate | v.rb:124-132 | for any runner of `%`-free text and placeholders, and a file, icon and caption without `%`, every `%F`, `%U`, `%i` and `%c` is replaced by its value, and `%u`, other placeholders and all text are kept |
| Viewer.FillRunnerArgsU | v.rb:124-132 | a single `%U` becomes the quoted file name |
| Viewer.FillRunnerArgsKeepsLowerU | v.rb:124-132 | unlike the library, `%u` is left in the command |
| Viewer.ArgsOf | v.rb:37-59 | icon `""`, caption `v`, the existing expanded files, and every db and factor word, each in argument order |
| Viewer.Launches | v.rb:23-28 | at most one command per file, and one per file when no file stops the loop |
| Viewer.LaunchesComplete | v.rb:23-28 | every file is launched exactly when every file has a runner |
| Viewer.LaunchesFilled | v.rb:23-28 | command `i` is the runner of file `i` filled with that file |
| Viewer.LaunchesStopped | v.rb:23-28 | after the first file without a runner nothing more is launched |
| Viewer.LaunchesNext | v.rb:23-28 | one turn of the files loop adds the file's filled command when it has a runner, and otherwise the result is final |
| Viewer.FileViewer.constructor | v.rb:21-29 | the viewer parses the arguments and then launches the commands for its files |
| Viewer.FileViewer.ParseArgs | v.rb:37-65 | sets `@args` from the arguments and says to go on exactly when some file exists |
| Viewer.FileViewer.UpdateRunner | v.rb:117-122 | the runner for a MIME type is the adjusted first answer of the two stores |
| Viewer.FileViewer.RunFile | v.rb:24-27 | for one file, a command exactly when its runner lookup gives a runner, and then that runner filled with the file |
| Viewer.FileViewer.RunFiles | v.rb:23-28 | the loop records the specified launches for the files in order |

## Left out

- Running the commands: the backtick calls in `v.rb` and the calls to `file --mime` and `xdg-mime` are shell-outs. MIME detection is the parameter `mimeOf`, and the launched commands are recorded, not run.
- `getMime` of `lib/mime-helpers.rb` is a shell-out and becomes the `mimeOf` parameter.
- Logging (`p`, `puts`, `Zlog`) and the `@opts[:verbose]` switch that guards it in `getRunnerFromConfig` are output only, and the model leaves both out. The model assumes that the object including `MimeHelpers` sets `@opts` and `@args` to hashes.
- `exit 0` in `parseArgs`: `FileViewer.ParseArgs` returns `proceed`, and the constructor launches nothing when no file exists.
- `ParseConfig`'s own parsing: the parameters of each readable file are given by `Env.parsed`.
- `File.expand_path` is the uninterpreted function `Env.expand`.
- `MimeHelpers.MimeRunnerFor`: the desktop-file directory is a parameter `base`. In the library, `mimeRunnerPath` is a local variable of the module body, so the method itself cannot see it.
- `MimeHelpers.FillRunnerArgs`: backslash sequences such as `\0` and `\&` in a file name, icon or caption are special in Ruby `gsub` replacements; the model inserts them literally.
- `MimeHelpers.FillRunnerArgs`: a nil icon or caption raising `TypeError` in `gsub` is not modelled; both are strings in the model.
- `ArgumentParser.Initialize`: `Regexp.new` failing on a malformed pattern is not modelled; every pattern compiles.
- `ArgumentParser.Parse`: regular expression matching, with `downcase` folded in, is the parameter `m`.
- `ArgumentParser.DeepMerge`: the in-place mutation and aliasing of the Ruby hashes and strings are modelled as values. Each merge returns the new hash, and `String#[]=` returns the new string.
- `ArgumentParser` is modelled as functions and methods over values rather than a class. `@config` is written only during `initialize`, and the model returns it as `Config`.
- `Viewer.FileViewer.UpdateRunner`: when neither store has a runner, `adjustRunner(nil)` raises `NoMethodError`. The model returns `None` instead. The observable effect is the same, because `RunFiles` then launches nothing further.
- The "Added Associations" section of `mimeapps.list` and every id after the first in a MIME entry are never read by the code, so the model does not read them either.
