# HiIP sample-sheet and contrast parsers in Dafny

This project models the parsers in `src/files.py` of the HiIP pipeline. It
covers four functions:

- `clean` strips quotes from both ends of a value.
- `index` finds the `sample` and `group` columns of a sample sheet and decides
  whether the first line is a header.
- `groups` reads the sample sheet into a map from group name to its samples.
- `contrasts` reads the file of requested group comparisons. It checks each
  comparison against the groups the sample sheet defines.

A file is modelled as the sequence of its lines. A call to `fatal` becomes a
`Failure` result that carries the reason. The loops of the source are Dafny
methods with loops and invariants. Each method is proved against a
specification function of the whole input, and lemmas prove what the pipeline
relies on.

The code is in four modules:

- `Wrappers` (`wrappers.dfy`) holds `Option` and `Result`.
- `Lists` (`lists.dfy`) models the Python list operations the parsers use:
  - `list.index`;
  - membership;
  - the append-if-absent idiom (`Dedup`, `AddOnce`);
  - collecting the missing names of a list (`Missing`).
- `Strings` (`strings.dfy`) models the Python string operations:
  - `str.strip()` and `str.strip(c)`;
  - `str.lower()`;
  - `str.split(d)`, and `re.split` on a character class.
- `Files` (`files.dfy`) models the four parsers.

Three behaviours of the source are modelled as written:

- `groups` calls `index(file)` without passing its own `delim`, so the header
  of a sample sheet is always split on tabs, while the data lines are split
  on `delim` (`Files.SampleSheet`).
- When the header is not recognised, the fallback records every required name
  at its own position, and does not lowercase it. Lowercased names matched
  before the first missing one stay in the map. A name that appears twice in
  `required` ends at its last position (`Files.LocatedIn`).
- A group field with a trailing `,` or `;` names the empty group `""`
  (`Files.TrailingSeparatorGivesEmptyGroup`). A contrast line with a single
  field, a blank line included, counts as having too few fields, not as an
  empty group (`Files.OneFieldContrastSkipped`).

`clean` is not idempotent: `'"a"'` loses one pair of quotes on each pass
(`Files.CleanNotIdempotent`).

## Model

| member | source | states |
|---|---|---|
| Strings.Strip | src/files.py:26 | `s.strip(chars)`: the result is a middle part of `s`, every removed character is in `chars`, and neither end of the result is in `chars` |
| Strings.Split | src/files.py:151 | `line.split(delim)` (and `re.split` on a character class) always yields at least one piece |
| Strings.SplitPieces | src/files.py:187 | no piece of a split contains a separator |
| Strings.SplitPiecesAvoid | src/files.py:151 | a character that occurs in a string only as a separator occurs in none of its pieces |
| Strings.SeparatorSplits | src/files.py:151 | a string holding a separator splits into at least two pieces |
| Strings.StripAvoids | src/files.py:26 | stripping adds no character: the result avoids whatever the input avoids |
| Strings.SplitJoin | src/files.py:151 | joining the pieces of `s.split(d)` with `d` gives back `s` |
| Strings.SplitWithoutSeparator | src/files.py:151 | a string without separators splits into itself alone |
| Strings.SplitAtSeparator | src/files.py:187 | the pieces of `a + d + b` are the pieces of `a` followed by the pieces of `b` |
| Strings.Lower | src/files.py:48 | `str.lower()` maps every character and keeps the length |
| Files.Clean | src/files.py:16-27 | the loop strips each character of `remove` in turn. The result is a middle part of `s`, the cut-off characters are in `remove`, and the result neither begins nor ends with the last character of `remove` |
| Files.Chars | src/files.py:25 | the characters `clean` strips are exactly those of `remove`, in both directions |
| Files.CleanedAvoids | src/files.py:16-27 | cleaning adds no character: the result avoids whatever the input avoids |
| Files.CleanedTrims | src/files.py:25-26 | repeated stripping removes only characters of `remove`, and only at the two ends |
| Files.CleanNotIdempotent | src/files.py:16-27 | cleaning `'"a"'` gives `"a"`, and cleaning that gives `a` |
| Lists.IndexOf | src/files.py:61 | `header.index(col)` is defined exactly when `col` is in `header`, and is then its first position |
| Files.Index | src/files.py:30-88 | an empty file is the fatal `EmptyGroupsFile` and no other input fails. Otherwise the columns are located in the stripped, lowercased and cleaned first line with the key set and positions that `Files.Locate` states |
| Files.Locate | src/files.py:55-88 | `has_header` holds exactly when every lowercased required name is a header column. The keys are then exactly the lowercased names, each mapped to its first column. Otherwise the keys are exactly the required names plus the lowercased names matched before the first missing one: each required name maps to its last position in `required` (to `i` when the names are distinct), and every other key keeps its first header column |
| Files.MatchColumns | src/files.py:58-62 | the lookup loop stops at the first lowercased required name missing from the header, and maps each name matched before it to its first header column |
| Files.HeaderMissing | src/files.py:62-86 | the fallback map meets `LocatedIn`, and with distinct required names `indices[required[i]] == i` |
| Files.Positional | src/files.py:85-86 | after `indices[required[i]] = i` for every `i`, each required name maps to its last position, other keys keep their values, and no key is lost or invented |
| Files.RequiredLayout | src/files.py:133-135 | the columns `index` returns for `sample` and `group` are their first header positions when the header is recognised, and 0 and 1 otherwise |
| Files.Groups | src/files.py:91-195 | an empty file is the fatal `EmptyGroupsFile` and no other input fails. A group is a key exactly when an accepted line names it. Its list is the de-duplicated samples of those lines, in order, without repetition |
| Files.ReadSamples | src/files.py:143-193 | the line loop leaves each group mapped to the de-duplicated samples of the accepted lines naming it, and maps no other group |
| Files.ReadStep | src/files.py:149-193 | one more line keeps the loop invariant: a skipped line changes nothing, and an accepted line adds its sample under each of its groups |
| Files.ParseSampleLine | src/files.py:151-188 | the line lacks a column exactly when its split on `delim` has no piece at the sample or the group position. An accepted line has a non-empty sample without `delim`, and at least one group, none holding `delim`, `,` or `;` |
| Files.SampleLineShape | src/files.py:151-188 | the same facts about every line as the sample-sheet reading sees it |
| Files.FieldAvoids | src/files.py:151 | a stripped field of a line holds no delimiter |
| Files.GroupNamesAvoid | src/files.py:187-188 | a group field yields at least one name, and no name holds `,`, `;` or a character the field lacks |
| Files.CleanEachAvoids | src/files.py:187-188 | every stripped and cleaned piece of a split lacks the separators |
| Files.AddToGroups | src/files.py:189-193 | the inner loop creates each new group and appends the sample to each of its groups unless already listed there. Other groups are unchanged |
| Files.RegisterEntry | src/files.py:189-193 | appending a sample only when absent keeps each list equal to the de-duplicated samples of the lines seen so far |
| Lists.RegisterStep | src/files.py:190-193 | for one key: creating the list when new and appending only when absent extends the de-duplicated list by the new element |
| Lists.Dedup | src/files.py:192-193 | the result has no repetition, and holds exactly the elements of the input |
| Lists.DedupSnoc | src/files.py:192-193 | the append-if-absent step computes the de-duplicated list of the extended input |
| Lists.DedupKeepsFirstAppearance | src/files.py:189-193 | the de-duplicated list keeps the order in which elements first appear |
| Files.MembersIff | src/files.py:189-193 | a sample is among a group's members exactly when some accepted entry has that sample and names the group |
| Files.EntriesIff | src/files.py:149-183 | the entries are exactly the data lines read as members |
| Files.GroupListing | src/files.py:144-193 | sample `s` is listed under group `g` exactly when an accepted line has cleaned sample `s` and `g` among its groups. An accepted line is a data line (not the recognised header) with both columns and a non-empty sample and group |
| Files.TrailingSeparatorGivesEmptyGroup | src/files.py:187-188 | a group field ending in `,` or `;` names one more group, the empty string |
| Files.CleanEachConcat | src/files.py:188 | cleaning every part of a concatenation cleans each half |
| Files.OneFieldLineSkipped | src/files.py:151-171 | a sample-sheet line without the delimiter, a blank line among them, always lacks a column, with or without a header |
| Files.Contrasts | src/files.py:196-281 | the file fails, naming the undefined groups in order with repetitions, exactly when an accepted line names an undefined group. Otherwise the result is the requested pairs, each once and in first-request order, and every group they name is defined |
| Files.ParseContrastLine | src/files.py:228-234 | a line has too few fields exactly when it holds no delimiter. A comparison names two non-empty groups, neither holding the delimiter |
| Files.ContrastLineShape | src/files.py:228-238 | the same facts about every contrast line as the loop of `contrasts` sees it |
| Files.ContrastStep | src/files.py:255-264 | one more line keeps the loop invariant: the errors are the undefined groups so far and the comparisons are the de-duplicated requests so far |
| Lists.AppendMissing | src/files.py:255-258 | the loop over `[g1, g2]` appends exactly the groups that are not defined, in order |
| Lists.Missing | src/files.py:255-258 | the collected names are not defined, and every undefined name is collected |
| Files.UndefinedIff | src/files.py:255-258 | a group is reported exactly when it is undefined and some requested pair names it |
| Files.AllDefined | src/files.py:266-281 | when nothing is reported, both groups of every requested pair are defined |
| Files.RequestedIff | src/files.py:226-264 | a pair is requested exactly when some line reads as that pair |
| Files.OneFieldContrastSkipped | src/files.py:228-238 | a contrast line without the delimiter, a blank line included, has too few fields |
| Files.ExtraColumnsIgnored | src/files.py:228-233 | columns after the second do not change how a contrast line is read |

## Left out

- Opening and reading files (`open`, `next(fh)`, iterating over a handle) is not modelled. A file is its sequence of lines.
- `Colors`, `err` and the text of every warning and error are not modelled. They only print to the terminal. `fatal` is a `Failure` value, not a process exit, and `UndefinedGroups` carries the names the message joins with `,`.
- The line counters (`lineno`, `line_number`) are not modelled. They only feed warning text.
- The `__main__` driver at the end of the file is not modelled.
- `Strings.Lower` maps only the ASCII letters `A`-`Z`. Python's full Unicode case mapping is not modelled. No non-ASCII character lowercases to a character of `sample` or `group`, so recognising the header is unaffected. Header columns holding other non-ASCII capitals can differ.
- Files.Clean: `remove` is a sequence of single characters, as in every call in the source. A multi-character entry of `remove`, which `str.strip` would treat as a set of characters, is not modelled.
- The `groups` argument of `contrasts` (a list, or the keys of the map `groups` returns) is modelled as a set of names, since the code only asks whether a name is in it.
- The delimiter is a single character. Python's `str.split` also accepts a longer separator, and raises `ValueError` on the empty one. The default, a tab, is one character.
- The map `groups` returns has no key order. The Python dict lists the groups in order of first appearance; only its keys and values are modelled.
- The comparisons that `contrasts` collects before it fails are not returned in the model, because `fatal` ends the program.
