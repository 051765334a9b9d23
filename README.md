# Jumpcut alias engine in Dafny

Jumpcut keeps named shell-command templates ("aliases"), one small text file
per alias in a single storage directory. The tool never runs anything
itself: it expands the chosen template and prints it as one line, which a
shell wrapper function then executes. This project models the core of the
tool and proves properties of it:

- `aliases.dfy` (module `Aliases`, from `src/alias.rs`): the alias record; the
  three-line file format read line by line; the `?[name]` placeholder engine
  `fill_in_parameters`, which remembers every answer it asks for in the
  argument map; and `execute`, which substitutes `?pwd` and prints the
  expansion.
- `jumpcut.dfy` (module `Jumpcut`, from `src/main.rs`): reserved verbs; the
  AND-of-fragments search with a sorted result; the split of the command line
  into `--key=value` arguments and name fragments; the confirmation gate
  (levels 0, 1 and 2); resolving a name to an alias; and the add, copy,
  modify and remove operations. The alias directory is a class `Store` that
  holds a map from alias name to file text and logs of the printed lines
  (`stdout`) and error messages (`stderr`). Each operation is also a function
  on the map (`AddOutcome`, `ModifyOutcome`, `RemoveOutcome`, `CopyOutcome`,
  `FindAndExecEffect`), and the lemmas are stated over those functions.
- `utils.dfy` (module `Utils`, from `src/utils.rs`): `args_ok`, and the removal
  of the `\\?\` prefix in `absolute_path`, given the canonical path string.
- `text.dfy`, `int8.dfy` and `order.dfy` hold helpers that follow the Rust
  standard library: `str::split`, `BufRead::lines`, `str::contains` and
  `str::replace`; `i8`, `i8::to_string` and `str::parse::<i8>`; and the
  order `Vec<String>::sort` uses.

Prompts are inputs. The yes/no answer is a `bool`, the typed confirmation is
a string, the selection among several matches is an `Option<nat>` (`None` is
a cancelled selection), and the values typed for missing parameters are a
queue of strings. When the queue is used up, the answer is `""`, which is
what a failed prompt gives through `unwrap_or_default`. The working directory
is also an input: the canonical path string of the current directory.

The model follows what the code does, including these details that are easy
to misread:
- `?pwd` is substituted only when the command ends with it, but then every
  `?pwd` in the command is replaced, not only the trailing one
  (`PwdTemplateReplacesEveryMarker`).
- Confirmation levels are not clamped. The file and the `confirm` verb accept
  any `i8`. An alias with a level other than 0, 1 or 2 prints no line at all.
- The "do nothing" line is a single space.
- `rm` and the modifying verbs on a missing alias report an error and still
  return success. `cp` from a missing source returns an error.
- There is only one storage root. No shared root is looked up anywhere.
- The source is halfway through a refactoring. `main.rs` calls `Alias::new`
  with four arguments and calls `instantiate_arguments`. The model follows
  `alias.rs`: five fields, with the storage path as an opaque string, and
  `fill_in_parameters`.

## Model

| member | source | states |
|---|---|---|
| `Aliases.UpdateDescription` | src/alias.rs:42-45 | "-" clears the description; any other text is stored verbatim; no other field changes |
| `Aliases.UpdateConfirm` | src/alias.rs:46-48 | the level is stored exactly as given; no other field changes |
| `Aliases.ConfirmOption` | src/alias.rs:75-83 | the options line gives the parsed i8 when it splits at "=" into exactly "confirm" and one more piece, and 0 when that piece is not an i8 or the line has any other shape |
| `Aliases.ConfirmLineShape` | src/alias.rs:76-78 | splitting at "=" gives exactly two pieces with "confirm" first if and only if the line is "confirm=" followed by text without "=" |
| `Aliases.Read` | src/alias.rs:70-86 | no line is an error; one line gives that command, an empty description and level 0; two lines add the description; exactly three lines take the level from the options line; four or more lines give level 0 |
| `Aliases.Write` | src/alias.rs:98-99 | the file text: command, description and "confirm=" with the level, separated by newlines; `WriteLines` and `ReadWriteRoundTrip` state what it reads back as |
| `Aliases.WriteLines` | src/alias.rs:98-101 | a written file reads back as exactly three lines: command, description, "confirm=" and the level |
| `Aliases.ConfirmLevelsAreNotClamped` | src/alias.rs:79 | the options line written for any i8 level reads back as that same level, 5 and -1 included |
| `Aliases.ConfirmOutOfRangeIsZero` | src/alias.rs:79 | "confirm=128", which is outside the i8 range, reads as level 0 |
| `Aliases.ConfirmPlusSign` | src/alias.rs:79 | "confirm=+2" reads as level 2, because `parse` accepts a leading plus sign |
| `Aliases.ReadWriteRoundTrip` | src/alias.rs:61-101 | reading what `write` stored gives back the same alias, for a command and description without newlines |
| `Aliases.CarriageReturnIsLost` | src/alias.rs:68 | a command ending in a carriage return comes back without it, so the round trip fails for it |
| `Aliases.PlaceholderAt` | src/alias.rs:136 | a match of the placeholder pattern at the start of the text, whose key fits inside the text |
| `Aliases.PlaceholderAtShape` | src/alias.rs:136 | a placeholder match is a run of `[A-Za-z0-9_]` characters, and the text starts with "?[" followed by that run and "]" |
| `Aliases.PlaceholderAtOf` | src/alias.rs:136 | the text "?[key]" is recognised as a placeholder with exactly that key |
| `Aliases.MissingValue` | src/alias.rs:142-145 | for a missing name: a non-empty answer is used; an empty answer is used with full instantiation and is replaced by the original placeholder text otherwise |
| `Aliases.Fill` | src/alias.rs:137-152 | the reference scan of `fill_in_parameters`; its properties are the `Fill` lemmas below and `FillInParameters` is proved equal to it |
| `Aliases.FillInParameters` | src/alias.rs:133-155 | the loop that scans matches left to right, updating the argument map and using up answers, computes exactly the reference scan `Fill` |
| `Aliases.FillWithoutPlaceholders` | src/alias.rs:137 | a command without a placeholder is returned unchanged, the map is unchanged and nothing is asked |
| `Aliases.FillKnownKey` | src/alias.rs:139-140 | the first placeholder, when its key is in the map, becomes that value verbatim, and scanning resumes after the placeholder, so the value is not rescanned |
| `Aliases.FillMissingKey` | src/alias.rs:141-148 | the first placeholder, when its key is missing, asks once, substitutes the value and adds it to the map for the rest of the scan |
| `Aliases.FillAsksOncePerMissingName` | src/alias.rs:146-147 | the handler is asked exactly about the names that occur in the command and are missing from the map, each at most once |
| `Aliases.FillConsumesOneAnswerPerQuestion` | src/alias.rs:142 | each question uses exactly one answer, in order |
| `Aliases.FillBlankAnswersKeepCommand` | src/alias.rs:143-147 | with partial instantiation and only empty answers, every placeholder, including repeated ones, stays as it is |
| `Aliases.FillExampleKnownArguments` | src/alias.rs:133-155 | "mv ?[a] ?[b]" with a=foo and b=bar gives "mv foo bar" without a question |
| `Aliases.FillExampleAskedOnce` | src/alias.rs:146-147 | "cp ?[x] ?[x].bak" with x missing asks once, and the answer "f" gives "cp f f.bak" |
| `Aliases.PwdTemplate` | src/alias.rs:113-119 | a command not ending in "?pwd" is untouched; one ending in it ends with the quoted directory afterwards |
| `Aliases.PwdTemplateReplacesEveryMarker` | src/alias.rs:116 | when the command ends with "?pwd", earlier occurrences are replaced by the quoted directory too |
| `Aliases.Expand` | src/alias.rs:113-122 | the expanded command; a command that does not end with "?pwd" is only instantiated in full |
| `Aliases.Execute` | src/alias.rs:110-126 | prints exactly one line: the `?pwd` step, then a full instantiation |
| `Aliases.IsInMainStorage` | src/alias.rs:91-93 | the storage path is the root or lies below it, component by component |
| `Int8.ParseI8` | src/alias.rs:79 | Rust's `parse::<i8>`: text without a digit never parses; `ConfirmLevelsAreNotClamped`, `ConfirmOutOfRangeIsZero` and `ConfirmPlusSign` pin its range and sign rules |
| `Text.Lines` | src/alias.rs:68 | `BufRead::lines`: an empty text has no line; `WriteLines` and `CarriageReturnIsLost` show how it splits and drops a carriage return |
| `Text.ReplaceAll` | src/alias.rs:116 | `str::replace`; `PwdTemplateReplacesEveryMarker` states that it replaces the leftmost occurrence and goes on after it |
| `Utils.ArgsOk` | src/utils.rs:53-55 | true exactly when at least `num` arguments follow the verb, that is `len >= num + 2` |
| `Utils.ArgsOkMonotone` | src/utils.rs:54 | a command line accepted for `num` arguments is accepted for any smaller `num` |
| `Utils.AbsolutePath` | src/utils.rs:27-35 | a path starting with `\\?\` loses exactly those four characters; any other path is returned unchanged |
| `Utils.AbsolutePathStripsOnce` | src/utils.rs:33 | only one prefix is removed, so a doubled prefix leaves one behind |
| `Jumpcut.IsReservedKeyword` | src/main.rs:145-151 | true exactly for the nine verbs is_exec_action, list, add, addwd, addpath, rm, desc, confirm, cp |
| `Jumpcut.FindAliases` | src/main.rs:154-165 | the result holds exactly the stored names that contain every fragment, in strictly ascending order |
| `Jumpcut.FindAliasesUnique` | src/main.rs:162-163 | the result is the only ascending listing of the matching names |
| `Jumpcut.FindAliasesNoParts` | src/main.rs:158 | with no fragment the result is every stored name, sorted |
| `Jumpcut.FindAliasesExample` | src/main.rs:154-165 | names rename, clean and remove searched with "re" and "na" give exactly ["rename"] |
| `Jumpcut.ArgMatchAt` | src/main.rs:94 | a match is "--", a non-empty key of name characters, "=" and a non-empty value without a newline, found in the token at that position, and the value runs up to the first newline or the end |
| `Jumpcut.ArgMatchAtFinds` | src/main.rs:94 | conversely, such a token at a position, with its value running up to a newline or the end, is the match found there |
| `Jumpcut.ArgMatchExample` | src/main.rs:94-99 | the search is not anchored and the value stops at a newline: "x--k=v", a newline and "w" give the argument k = v |
| `Jumpcut.ArgTokenRoundTrip` | src/main.rs:94-99 | the token "--key=value" gives back that key and value |
| `Jumpcut.NoEqualsNoArg` | src/main.rs:98-100 | a token without "=" is never an argument, so it is a name fragment |
| `Jumpcut.Partition` | src/main.rs:95-101 | the reference split, token by token; its meaning is stated by the four lemmas below |
| `Jumpcut.PartitionAppend` | src/main.rs:95-101 | splitting two runs of tokens concatenates the fragments in order and merges the maps with the later run winning |
| `Jumpcut.PartitionKeys` | src/main.rs:99 | the keys of the map are exactly the keys of the argument tokens |
| `Jumpcut.PartitionLastWins` | src/main.rs:99 | a key has the value of its last argument token |
| `Jumpcut.PartitionWithoutArguments` | src/main.rs:100 | when no token is an argument, all tokens are fragments in their order and the map is empty |
| `Jumpcut.PartitionArgs` | src/main.rs:94-101 | the loop over the tokens computes exactly the reference split `Partition` |
| `Jumpcut.ReadStored` | src/alias.rs:91-93 | an alias read from the directory carries its own name and lies in main storage |
| `Jumpcut.ExecEffect` | src/main.rs:234-236 | an alias file that cannot be read prints nothing and reports nothing; at most one line is printed |
| `Jumpcut.GateEffect` | src/main.rs:237-258 | level 0 prints the expansion; level 1 prints it when confirmed and a blank otherwise; level 2 prints it when the name is typed exactly and otherwise reports unexpected input and prints a blank; any other level prints nothing |
| `Jumpcut.DeclinedPrintsBlank` | src/main.rs:240-244 | a declined level-1 alias prints only the blank line, whatever its command |
| `Jumpcut.Resolve` | src/main.rs:193-221 | a single fragment that is a stored name is run directly; otherwise a run alias matches every fragment; there is no match exactly when no stored name matches; a single match runs; with several matches, selection `i` runs the `i`-th of the sorted matches, and no selection cancels |
| `Jumpcut.ResolveSingleMatch` | src/main.rs:209-211 | a name that is the only match runs without a prompt, whatever the selection |
| `Jumpcut.ResolveAsksOnlyWhenAmbiguous` | src/main.rs:212-220 | the selection changes nothing unless there are several matches and no exact name |
| `Jumpcut.FindAndExecEffect` | src/main.rs:191-224 | what resolving and executing prints and reports; `AtMostOneLine` states its one-line protocol |
| `Jumpcut.AtMostOneLine` | src/main.rs:191-265 | a run prints at most one line, and exactly one unless the selection is cancelled, the file cannot be read, or the level is not 0, 1 or 2 |
| `Jumpcut.AddOutcome` | src/main.rs:268-285 | a reserved name fails and changes nothing; an existing alias with overwrite declined is unchanged; otherwise the alias reads back with the given command, an empty description and level 0; no other alias changes |
| `Jumpcut.ModifyOutcome` | src/main.rs:327-337 | a missing alias is reported, succeeds and changes nothing; an unreadable file fails and changes nothing; otherwise the alias reads back as the changed record and no other alias changes |
| `Jumpcut.RemoveOutcome` | src/main.rs:340-348 | the alias is gone afterwards; a missing alias is reported and the call succeeds; no other alias changes |
| `Jumpcut.CopyOutcome` | src/main.rs:287-302 | the copy as a function of the directory; the three `Copy` lemmas below state what it does |
| `Jumpcut.CopyRead` | src/main.rs:291-296 | the copy once the source is read: the add, describe and confirm outcomes composed, with their error reports in order |
| `Jumpcut.CopyTouchesOnlyTarget` | src/main.rs:287-302 | a copy changes no alias but the target; a missing source fails with nothing changed; an unreadable source changes nothing |
| `Jumpcut.CopyCreatesTarget` | src/main.rs:290-296 | a new or overwritten target reads back with the source's command partially instantiated, the source's description and the source's level |
| `Jumpcut.CopyDeclinedKeepsCommand` | src/main.rs:294-296 | when overwriting is declined, the target keeps its command but takes the source's description and level |
| `Jumpcut.Store.ExecNothing` | src/main.rs:263-265 | appends the single-space line and nothing else |
| `Jumpcut.Store.ExecAlias` | src/main.rs:234-260 | leaves the directory unchanged and appends what the gate prints and reports |
| `Jumpcut.Store.FindAndExecAlias` | src/main.rs:191-224 | leaves the directory unchanged and appends what resolving and executing prints and reports |
| `Jumpcut.Store.ExecCommandLine` | src/main.rs:93-129 | splits the tokens, then resolves and executes with the fragments and arguments found |
| `Jumpcut.Store.AddAlias` | src/main.rs:268-285 | changes the directory as `AddOutcome` does and prints nothing to standard output |
| `Jumpcut.Store.ModifyAlias` | src/main.rs:327-337 | changes the directory as `ModifyOutcome` does |
| `Jumpcut.Store.AddDescription` | src/main.rs:313-317 | `modify_alias` with `update_description` |
| `Jumpcut.Store.SetConfirmation` | src/main.rs:320-324 | `modify_alias` with `update_confirm` |
| `Jumpcut.Store.ConfirmVerb` | src/main.rs:75-79 | stores the level text parsed as an i8, with 0 for text that is not one |
| `Jumpcut.Store.RemoveAlias` | src/main.rs:340-348 | changes the directory as `RemoveOutcome` does |
| `Jumpcut.Store.CopyAlias` | src/main.rs:287-302 | a missing source is reported and fails, an unreadable one fails, and otherwise the steps below run; together this is exactly `CopyOutcome` |
| `Jumpcut.Store.CopyReadAlias` | src/main.rs:291-296 | the partial instantiation, then the add, describe and confirm steps taken one after another, give exactly `CopyRead` |

## Left out

- File system access: opening, reading, writing and deleting alias files, listing the directory, and creating it. The directory is a map from alias name to file text. A file that is not valid UTF-8, which `lines` turns into no lines, is not modelled. Write and delete failures are not modelled either, so no operation fails with an I/O error.
- The prompt library: `Select`, `Confirm` and `Input` are answers passed in. Their own failures are not modelled: `interact()?` errors and the panic of `interact_opt().unwrap()`. The prompt texts and the alias passed to the two missing-value handlers are not modelled either. A selection index out of range, which the library never returns, is treated as a cancelled selection.
- The environment: `alias_path`, `env::current_dir`, `dirs::home_dir` and `fs::canonicalize`, with its panic for a missing path. The canonical working directory is an input, and the storage root is an opaque string joined to the alias name with "/".
- Verb dispatch in `main`: the usage text, the `args_ok` checks before each verb, joining words into commands, `is_exec_action`, and building the `addwd` and `addpath` commands. The only verb arms modelled are the `confirm` level parse and the last arm. The other arms only check argument counts and assemble strings before they call the operations modelled here.
- Listing and display: `list_aliases`, `to_string` and `Display`. These only print styled, padded text, and `accent_style` is not defined in the source.
- The text of the error messages: each `error` call is one `Message` value in the `stderr` log.
- `modify_alias` takes a closure. It is modelled by the two changes its callers pass, `Describe` and `SetConfirm`.
- The regular expressions are modelled on characters, not bytes. `.` stops only at "\n".
- `Path::exists` is also true for a directory with the alias's name. The model knows only files.
- Alias names are keys of the map, not paths. The source joins a name to the storage root with `Path::join` (src/main.rs:195, 235, 275, 288, 328, 341). An absolute name replaces the root, so `j /etc/hostname` runs the first line of that file, while the model searches and prints the blank line with "no matching aliases". A name such as `../x` lets `rm`, `desc`, `confirm` and `cp` act on files outside the store. The name `.` is the store directory itself, so the source prints nothing, while the model searches.
- Jumpcut.AtMostOneLine: counts the entries of the standard-output log. A printed entry can itself contain a newline, when the canonical working directory substituted for `?pwd` or a typed answer holds one, and the shell then reads more than one line.
- Aliases.ReadWriteRoundTrip: holds only when the command and description contain no newline and do not end in a carriage return. `BufRead::lines` drops a carriage return before a newline, and a newline would split the field (`CarriageReturnIsLost`).
- Jumpcut.AddOutcome: the read-back clause is stated only for a command that can be stored, for the same reason.
- Jumpcut.ModifyOutcome: the read-back clause is stated only for a changed record whose command and description can be stored.
- Jumpcut.CopyCreatesTarget: stated only when the copied command and the source's description can be stored.
- Jumpcut.CopyDeclinedKeepsCommand: stated only when the target's command and the source's description can be stored.
