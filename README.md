# MotionBuilder hotkey editor: the file formats and the editor's state

AW_hotkeyEditor is a Qt tool for Autodesk MotionBuilder. It shows the user's custom
keyboard file as an "Action / Key Combination" table. Next to it is a
"Script / Path to Script" table for the `action.global.scriptN` actions, which are
bound to script paths through a separate ActionScript file. It writes both tables
back on "Save Changes", and it can reset the custom file to one of the presets
MotionBuilder ships.

This project models that core in three modules.

- `py_text.dfy`: the Python 2 string primitives the editor relies on.
  - `PyText`: `strip` and `rstrip` over ASCII whitespace (`LStrip` is only the left half of `strip`, which the source never calls on its own), `replace(c, '')`, `partition`, `in` and `startswith`.
  - `PyText`: `'%d'` formatting, and reading a text as its lines. A line is ended by '\n' and keeps its terminator, as in iteration over a file or `readlines()`.
  - `Wrappers`: an `Option` datatype.
- `hotkey_format.dfy` (`HotkeyFormat`): the pure part. It covers:
  - the line normaliser `replacer`;
  - the split of a line into an action and a key at its first '=';
  - the script rows derived from `action.global.script` actions;
  - the first-match lookup of a script's path;
  - the lines `saveSettings` writes to both files;
  - the twelve-slot ActionScript file `createActionScriptFile` writes.

  It also holds the round trips between writing and reading.
- `hotkey_editor.dfy` (`HotkeyEditor`): the `UI_HotkeyEditor` widget reduced to its state. The class `HotkeyEditorUI` has:
  - a file store `files: map<string, string>` (path to whole text);
  - the settings table `settings: seq<HotkeyRow>`;
  - the scripts table `scripts: seq<ScriptRow>`.

  Its methods do what the widget does, step by step:
  - `__init__` copies the default preset and creates the ActionScript file when they are missing;
  - `_fillTables` inserts rows while counting `settingsRow` and `scriptsRow`;
  - `saveSettings` deletes, reopens and appends line by line;
  - `_replaceCustomFile` copies a preset, empties both tables and refills them.

  Each method's postcondition ties the new state to functions of `HotkeyFormat`, to `OddRows`, or to plain updates of the file map.

Facts about the code that the model keeps:

- Cells are not trimmed when a file is loaded. `replacer` strips the whole line, and the action and the key are just the two sides of the first '='. The line `a = k` therefore loads as `("a ", " k")`.
- The number of a script action is everything after `action.global.script`, trailing space included. `action.global.script3 = X` gives `"3 "`, the script row is named `"Script3 "`, and the lookup prefix is `"Script3 "`.
- The path found for a script keeps the rest of its line, line terminator included. A script number with no matching line shows an empty path.
- Empty lines of the custom file become rows too. Saving writes such a row back as a bare `"\n"`.
- The ActionScript header is written as `"[ScriptFiles]\r\n"` when the file is created, but as `"[ScriptFiles]\n"` by `saveSettings`.
- The removal loop at the start of `_fillTables` removes row 0, then row 1, and so on, while the rows shift up. On a non-empty table it keeps every other row (`HotkeyEditor.OddRows`). Every caller reaches it with an empty table, so it has no visible effect. The model states exactly what it leaves.
- `os.path.join` is modelled as Windows joins a relative name, with a backslash between.

## Model

| member | source | states |
|---|---|---|
| PyText.Strip | AW_hotkeyEditor.py:181 | `str.strip()`: the result has no whitespace at either end, and it is what is left of the input after removing a run of whitespace at each end |
| PyText.RStrip | AW_hotkeyEditor.py:228 | `str.rstrip()`: the result is a prefix of the input, only whitespace was removed after it, and it does not end in whitespace |
| PyText.LStrip | AW_hotkeyEditor.py:181 | the left half of `strip`: the result is a suffix of the input, only whitespace was removed before it, and it does not start with whitespace |
| PyText.StripEmpty | AW_hotkeyEditor.py:211-218 | a cell strips to the empty string exactly when it is all whitespace |
| PyText.StripFixed | AW_hotkeyEditor.py:212-216 | stripping a cell with no whitespace at its ends changes nothing |
| PyText.StripPadded | AW_hotkeyEditor.py:181 | stripping a solid text padded with whitespace on both sides gives back the text |
| PyText.LStripPadded | AW_hotkeyEditor.py:181 | stripping whitespace in front of a text that starts solid gives back the text |
| PyText.RStripPadded | AW_hotkeyEditor.py:228 | `rstrip` of a text that ends solid, followed by whitespace, gives back the text |
| PyText.StripKeepsSolid | AW_hotkeyEditor.py:211 | a non-whitespace character of a cell survives `strip`, so a `[` in an action is still there after stripping |
| PyText.StripNoNewChars | AW_hotkeyEditor.py:212-228 | `strip` and `rstrip` bring in no character that was not in the input |
| PyText.Without | AW_hotkeyEditor.py:181 | `replace(c, '')`: the result has no `c`, and a text without `c` is returned unchanged |
| PyText.WithoutCounts | AW_hotkeyEditor.py:181 | `replace(c, '')` keeps every other character exactly as often as the input holds it: the result's multiset is the input's with `c` removed |
| PyText.WithoutNoNewChars | AW_hotkeyEditor.py:181 | deleting a character brings in no other character |
| PyText.FindFrom | AW_hotkeyEditor.py:153 | the search for a substring from a position finds its first occurrence there or after, or reports that none exists |
| PyText.Find | AW_hotkeyEditor.py:153 | the first occurrence of a substring, and None exactly when it occurs nowhere |
| PyText.Contains | AW_hotkeyEditor.py:153 | Python's `pat in s`: the pattern occurs somewhere in the text |
| PyText.StartsWith | AW_hotkeyEditor.py:197 | `str.startswith`: the prefix is no longer than the text and equals its first characters |
| PyText.FindFirst | AW_hotkeyEditor.py:153 | the search returns any position that is the first occurrence |
| PyText.OccursAtChar | AW_hotkeyEditor.py:148-149 | a one-character pattern occurs at `j` exactly when that index holds the character |
| PyText.Partition | AW_hotkeyEditor.py:148-155 | `partition`: the three parts rebuild the input; when the separator occurs, the head ends where its first occurrence starts; otherwise the result is `(s, "", "")` |
| PyText.PartitionOf | AW_hotkeyEditor.py:148-149 | a text built as `x + sep + y`, with no earlier occurrence of the separator, partitions into exactly `x`, `sep` and `y` |
| PyText.PartitionChar | AW_hotkeyEditor.py:148-149 | partitioning on a single character gives a head without that character. When the character occurs, head + character + tail is the input; otherwise the result is `(s, "", "")` |
| PyText.ConcatAppend | AW_hotkeyEditor.py:207-218 | writing one more chunk appends it to the file's text |
| PyText.ConcatNext | AW_hotkeyEditor.py:207-218 | the text after `x + 1` writes is the text after `x` writes followed by chunk `x` |
| PyText.FirstLineLength | AW_hotkeyEditor.py:87 | the first line read from a non-empty text is non-empty, ends in '\n' unless it is the last one, and holds no other '\n' |
| PyText.Lines | AW_hotkeyEditor.py:87 | the lines Python yields for a file: their concatenation is the whole text, each is a line as read, and every line but the last ends in '\n' |
| PyText.LinesOfConcat | AW_hotkeyEditor.py:195 | reading back a text written as complete lines yields exactly those lines |
| PyText.Digit | AW_hotkeyEditor.py:191 | the character for a decimal digit is that digit |
| PyText.DigitsValue | AW_hotkeyEditor.py:191 | the number a string of decimal digits spells, most significant digit first |
| PyText.DecimalString | AW_hotkeyEditor.py:191 | `'%d' % n` is a non-empty string of digits that spells `n`, has no leading zero when `n > 0`, and has one digit exactly when `n < 10` |
| PyText.SlotNumbersPrinted | AW_hotkeyEditor.py:190-191 | the slot numbers 1, 9, 10 and 12 are written as `"1"`, `"9"`, `"10"` and `"12"` |
| PyText.DecimalStringInjective | AW_hotkeyEditor.py:191 | different slot numbers are written as different strings, and equal strings mean equal numbers |
| HotkeyEditor.Preset.FileName | AW_hotkeyEditor.py:46-51 | every preset is a `.txt` file of at least eight characters |
| HotkeyFormat.Replacer | AW_hotkeyEditor.py:180-181 | the normalised line has no tab and no whitespace at either end |
| HotkeyFormat.NormalisedFixed | AW_hotkeyEditor.py:180-181 | `replacer` leaves a line that is already normalised unchanged |
| HotkeyFormat.ReplacerExample | AW_hotkeyEditor.py:180-181 | `replacer` keeps the inner characters in order: `" a\tb "` becomes `"ab"` |
| HotkeyFormat.ReplacerIdempotent | AW_hotkeyEditor.py:180-181 | applying `replacer` twice gives the same as applying it once |
| HotkeyFormat.WithoutKeepsEnds | AW_hotkeyEditor.py:181 | deleting the tabs of a stripped line keeps its first and last characters, and keeps it non-empty |
| HotkeyFormat.WithoutAppend | AW_hotkeyEditor.py:181 | deleting a character from a concatenation deletes it from each part |
| HotkeyFormat.NormalisedJoin | AW_hotkeyEditor.py:214 | two normalised cells joined by a tab-free separator form a normalised line |
| HotkeyFormat.ReplacerPadded | AW_hotkeyEditor.py:181 | a normalised line followed by whitespace, such as its line terminator, is normalised back to that line |
| HotkeyFormat.ReplacerNoNewline | AW_hotkeyEditor.py:87 | a line read from a file normalises to a text with no newline |
| HotkeyFormat.ParseRow | AW_hotkeyEditor.py:148-149 | the action holds no '='; with an '=', action + "=" + key is the line; with none, the action is the whole line and the key is empty |
| HotkeyFormat.ParseRowOf | AW_hotkeyEditor.py:148-149 | `action + "=" + key` splits back into exactly that action and key when the action holds no '=' |
| HotkeyFormat.SplitAtFirstEquals | AW_hotkeyEditor.py:148-149 | `"foo = bar = baz"` splits at its first '=' into `"foo "` and `" bar = baz"` |
| HotkeyFormat.Settings | AW_hotkeyEditor.py:85-87 | the settings table loaded from a custom file: one row per line of the file |
| HotkeyFormat.ParseRows | AW_hotkeyEditor.py:146-151 | one settings row per line, in file order: row `i` is the split of normalised line `i` |
| HotkeyFormat.LoadedRowWellFormed | AW_hotkeyEditor.py:148-149 | a row loaded from a file line has cells without tab or newline, an action without '=', and cells that are empty or not all whitespace |
| HotkeyFormat.SettingsWellFormed | AW_hotkeyEditor.py:85-87 | every row of a loaded settings table is well formed in that sense |
| HotkeyFormat.IsScriptAction | AW_hotkeyEditor.py:153 | a settings row is a script action when its action contains `action.global.script` |
| HotkeyFormat.ScriptNumber | AW_hotkeyEditor.py:154-155 | the script number is the tail of the action after the first occurrence of `action.global.script` |
| HotkeyFormat.PathOf | AW_hotkeyEditor.py:198 | the path of a script line: everything after its first `" = "`, or nothing when it has none |
| HotkeyFormat.FindPath | AW_hotkeyEditor.py:193-198 | the lookup finds nothing exactly when no line starts with `"Script" + num` |
| HotkeyFormat.FindPathFirst | AW_hotkeyEditor.py:196-198 | when line `i` is the first that starts with `"Script" + num`, the lookup returns the text after that line's first `" = "` |
| HotkeyFormat.ScriptRowFor | AW_hotkeyEditor.py:153-162 | the script row of a script action: named `"Script"` + its number, with the looked-up path or an empty one |
| HotkeyFormat.ScriptRowsOf | AW_hotkeyEditor.py:153-162 | a settings row contributes at most one script row, and one exactly when its action contains `action.global.script` |
| HotkeyFormat.ScriptRows | AW_hotkeyEditor.py:153-162 | there are never more script rows than settings rows |
| HotkeyFormat.ScriptRowsAppend | AW_hotkeyEditor.py:153-162 | script rows keep the order of their settings rows: the script rows of `a + b` are those of `a` followed by those of `b` |
| HotkeyFormat.ScriptRowsMembers | AW_hotkeyEditor.py:153-162 | a script row is in the table exactly when some settings row has an action containing `action.global.script` that yields it, named `"Script"` + number, with the path looked up for that number |
| HotkeyFormat.HotkeyLine | AW_hotkeyEditor.py:211-218 | the line written for one settings row, by the first of the four cases that applies |
| HotkeyFormat.HotkeyLineEnds | AW_hotkeyEditor.py:211-218 | a row with an empty action is written as a bare '\n', and every other row as a line ended by CRLF |
| HotkeyFormat.HotkeyLines | AW_hotkeyEditor.py:208-218 | one written line per settings row, in row order |
| HotkeyFormat.HotkeyText | AW_hotkeyEditor.py:207-218 | the custom file `saveSettings` writes: the rows' lines one after another |
| HotkeyFormat.ScriptLine | AW_hotkeyEditor.py:228 | the line written for a script row always ends in a space followed by CRLF |
| HotkeyFormat.ScriptFileLines | AW_hotkeyEditor.py:223-228 | the lines written to the ActionScript file: the header ended by a bare '\n', then one line per script row |
| HotkeyFormat.ScriptText | AW_hotkeyEditor.py:220-228 | the ActionScript file `saveSettings` writes: those lines one after another |
| HotkeyFormat.SlotLine | AW_hotkeyEditor.py:191 | the line written for slot `i`: `Script<i> = ` and CRLF |
| HotkeyFormat.SeedLines | AW_hotkeyEditor.py:188-191 | a fresh ActionScript file has the header and one line per slot: 13 lines |
| HotkeyFormat.SeedText | AW_hotkeyEditor.py:188-191 | the fresh ActionScript file: those 13 lines one after another |
| HotkeyFormat.CRLFLine | AW_hotkeyEditor.py:212-216 | a newline-free text ended by CRLF is one complete line |
| HotkeyFormat.StripNoNewline | AW_hotkeyEditor.py:212-216 | stripping a newline-free cell leaves it newline-free |
| HotkeyFormat.StrippedLine | AW_hotkeyEditor.py:212-216 | a stripped cell, a newline-free tail and CRLF make one complete line |
| HotkeyFormat.HotkeyLineIsLine | AW_hotkeyEditor.py:211-218 | for cells without newlines, each of the four written shapes is exactly one line |
| HotkeyFormat.HotkeyTextLines | AW_hotkeyEditor.py:207-218 | the saved custom file reads back as one line per settings row, in row order |
| HotkeyFormat.SectionLineRoundTrip | AW_hotkeyEditor.py:211-212 | a normalised section line without '=' loads as `(line, "")` and is written back as the line plus CRLF |
| HotkeyFormat.HeaderRoundTrip | AW_hotkeyEditor.py:211-212 | the header `[X]` loads as `("[X]", "")` and is written back as exactly `"[X]\r\n"` |
| HotkeyFormat.HeaderRowLine | AW_hotkeyEditor.py:211-212 | a header row with an empty key is written as its stripped action plus CRLF |
| HotkeyFormat.HeaderRowBack | AW_hotkeyEditor.py:211-212 | the header row written and reloaded is its stripped action with an empty key |
| HotkeyFormat.HeaderRowRewritten | AW_hotkeyEditor.py:211-212 | a reloaded header row is written as the same line |
| HotkeyFormat.HeaderRowSame | AW_hotkeyEditor.py:211-212 | a reloaded header row has the same stripped cells |
| HotkeyFormat.StrippedCell | AW_hotkeyEditor.py:212-216 | a stripped cell without tab or newline is normalised and newline-free |
| HotkeyFormat.PaddedAction | AW_hotkeyEditor.py:214-216 | the action reloaded with the space `saveSettings` puts before '=' strips back to the action |
| HotkeyFormat.PaddedKey | AW_hotkeyEditor.py:214 | the key reloaded with the space `saveSettings` puts after '=' strips back to the key |
| HotkeyFormat.AssignmentRowLine | AW_hotkeyEditor.py:213-214 | a row with both cells non-empty is written as `a.strip() + " = " + k.strip()` plus CRLF, with a normalised body |
| HotkeyFormat.AssignmentLineParse | AW_hotkeyEditor.py:148-149 | the written `a = k` line reloads as `("a ", " k")` |
| HotkeyFormat.AssignmentLineOf | AW_hotkeyEditor.py:213-214 | the row `("a ", " k")` is written as `a = k` plus CRLF |
| HotkeyFormat.AssignmentRowBack | AW_hotkeyEditor.py:213-214 | an assignment row written and reloaded is its stripped cells padded by one space each |
| HotkeyFormat.AssignmentRowRewritten | AW_hotkeyEditor.py:213-214 | a reloaded assignment row is written as the same line |
| HotkeyFormat.AssignmentRowSame | AW_hotkeyEditor.py:213-214 | a reloaded assignment row has the same stripped cells |
| HotkeyFormat.EmptyKeyRowLine | AW_hotkeyEditor.py:215-216 | a non-header action with an empty key is written as `a.strip() + " = "` plus CRLF |
| HotkeyFormat.EmptyKeyLineParse | AW_hotkeyEditor.py:148-149 | the written `a = ` line reloads as `("a ", "")` |
| HotkeyFormat.EmptyKeyLine | AW_hotkeyEditor.py:215-216 | a non-empty action without '[' and an empty key take the third case |
| HotkeyFormat.EmptyKeyLineOf | AW_hotkeyEditor.py:215-216 | the row `("a ", "")` is written as `a = ` plus CRLF |
| HotkeyFormat.EmptyKeyRowBack | AW_hotkeyEditor.py:215-216 | such a row written and reloaded is its stripped action plus one space, with an empty key |
| HotkeyFormat.EmptyKeyRowRewritten | AW_hotkeyEditor.py:215-216 | a reloaded empty-key row is written as the same line |
| HotkeyFormat.EmptyKeyRowSame | AW_hotkeyEditor.py:215-216 | a reloaded empty-key row has the same stripped cells |
| HotkeyFormat.BlankRowReload | AW_hotkeyEditor.py:217-218 | a row with an empty action is written as `"\n"`, and so is the row it reloads as |
| HotkeyFormat.RowReloadStable | AW_hotkeyEditor.py:207-218 | every well-formed row, written and reloaded, is written as the same line, and a row with an action keeps its stripped cells |
| HotkeyFormat.WhitespaceCellUnstable | AW_hotkeyEditor.py:215-218 | the row `(" ", "")` is written as `" = "` and CRLF, reloads as `("", "")`, and that row is written as a bare '\n': a whitespace-only cell is not stable |
| HotkeyFormat.LoneEqualsParse | AW_hotkeyEditor.py:148-149 | a line that is a lone '=' splits into two empty cells |
| HotkeyFormat.SaveReloadStable | AW_hotkeyEditor.py:207-218 | saving a table of well-formed rows, reloading the file and saving again writes the same file |
| HotkeyFormat.SaveIsIdempotent | AW_hotkeyEditor.py:207-218 | once a loaded file has been saved, loading it again and saving it again writes the same file |
| HotkeyFormat.SlotMatch | AW_hotkeyEditor.py:197 | the script line of slot `e` starts with the prefix `"Script" + d + " "` exactly when `d == e` |
| HotkeyFormat.SlotPath | AW_hotkeyEditor.py:198 | the path read from `Script<d> = rest` is `rest` |
| HotkeyFormat.SlotFound | AW_hotkeyEditor.py:193-198 | the first script line for slot `d` gives its rest as the path |
| HotkeyFormat.SeedLineAt | AW_hotkeyEditor.py:190-191 | the fresh file has 13 lines, and line `n` is `Script<n> = ` plus CRLF |
| HotkeyFormat.SeedLinesAreLines | AW_hotkeyEditor.py:188-191 | every line of the fresh file is a complete line |
| HotkeyFormat.SeedShape | AW_hotkeyEditor.py:188-191 | the fresh file reads back as exactly 13 CRLF lines: `[ScriptFiles]`, then `Script1 = ` to `Script12 = ` in ascending order |
| HotkeyFormat.SeedNotEarlier | AW_hotkeyEditor.py:188-197 | no line before the one for slot `n` starts with its prefix |
| HotkeyFormat.SeedLookup | AW_hotkeyEditor.py:188-198 | in a fresh file, every slot 1 to 12 is found, and its path is the bare line terminator |
| HotkeyFormat.SlotNameNoNewline | AW_hotkeyEditor.py:226-228 | a script name of the form `Script<digits>` holds no newline |
| HotkeyFormat.ScriptLineIsLine | AW_hotkeyEditor.py:228 | the line written for a script row whose stripped name and rstripped path hold no newline is one complete line |
| HotkeyFormat.ScriptTextLines | AW_hotkeyEditor.py:223-228 | when no script row's cells hold a newline, the saved ActionScript file reads back as `"[ScriptFiles]\n"` followed by one line per script row, in row order |
| HotkeyFormat.ScriptFileLineIsLine | AW_hotkeyEditor.py:228 | each script line of the saved file is a complete line when its row's cells hold no newline |
| HotkeyFormat.SavedHeaderIsLine | AW_hotkeyEditor.py:224 | the saved header is a complete line |
| HotkeyFormat.ScriptFileLineAt | AW_hotkeyEditor.py:225-228 | line `k` of the saved file is `name.strip() + " = " + path.rstrip() + " \r\n"` for script row `k - 1` |
| HotkeyFormat.ScriptFileLinesShape | AW_hotkeyEditor.py:223-228 | the saved file has one line more than the table, each line after the header being that row's script line |
| HotkeyFormat.HotkeyLinesPrefix | AW_hotkeyEditor.py:208 | the lines for the first `n` rows are the first `n` lines |
| HotkeyFormat.HotkeyTextNext | AW_hotkeyEditor.py:208-218 | the custom file after row `x` is the file before it plus that row's line |
| HotkeyFormat.ScriptFileLinesPrefix | AW_hotkeyEditor.py:225 | the lines for the first `n` script rows are the header and the first `n` script lines |
| HotkeyFormat.ScriptTextNext | AW_hotkeyEditor.py:225-228 | the ActionScript file after row `y` is the file before it plus that row's line |
| HotkeyFormat.ScriptTextEmpty | AW_hotkeyEditor.py:224 | with no script rows, the saved file is the header line alone |
| HotkeyFormat.SavedScriptNext | AW_hotkeyEditor.py:225-228 | the saved lines up to script row `y` are those up to `y - 1` plus that row's line |
| HotkeyFormat.SavedNotEarlier | AW_hotkeyEditor.py:228 | a saved line for another slot does not start with this slot's prefix |
| HotkeyFormat.SavedHeaderNoSlot | AW_hotkeyEditor.py:224 | the saved header never starts with a slot prefix |
| HotkeyFormat.SavedNoEarlierSlot | AW_hotkeyEditor.py:223-228 | no saved line before the first row for slot `d` starts with its prefix |
| HotkeyFormat.SavedSlotLine | AW_hotkeyEditor.py:228 | the saved line for the row named `Script<d>` is `Script<d> = ` followed by its path |
| HotkeyFormat.SavedSlotFound | AW_hotkeyEditor.py:223-228 | among the saved lines, the lookup for slot `d` finds the rstripped path of the first row named `Script<d>`, plus `" \r\n"` |
| HotkeyFormat.SavedPathFound | AW_hotkeyEditor.py:193-198 | after a save, reading the ActionScript file back finds each slot's rstripped path, followed by `" \r\n"`; only the rows before that slot's row need `Script<digits>` names |
| HotkeyFormat.SavedPathStripped | AW_hotkeyEditor.py:228 | the path read back, rstripped, is the rstripped path that was saved |
| HotkeyEditor.DefaultConfigsPath | AW_hotkeyEditor.py:42 | the preset folder: MotionBuilder's configuration path followed by `Keyboard` |
| HotkeyEditor.KeyboardConfigPath | AW_hotkeyEditor.py:43 | the user's keyboard folder: the user configuration path followed by `/Keyboard` |
| HotkeyEditor.ActionScriptPath | AW_hotkeyEditor.py:44 | the user's scripts folder: the user configuration path followed by `/Scripts` |
| HotkeyEditor.PresetPath | AW_hotkeyEditor.py:238 | a preset's file is the preset folder, a backslash, and the preset's file name |
| HotkeyEditor.CustomKeysPath | AW_hotkeyEditor.py:70 | the custom hotkey file is the keyboard folder, a backslash, and `customHotkeys.txt` |
| HotkeyEditor.ActionScriptFilePath | AW_hotkeyEditor.py:71 | the ActionScript file is the scripts folder, a backslash, and `ActionScript.txt` |
| HotkeyEditor.Join | AW_hotkeyEditor.py:69-71 | a directory that does not end in a separator is joined to the name with a backslash |
| HotkeyEditor.PathsDistinct | AW_hotkeyEditor.py:70-71 | the custom hotkey file and the ActionScript file are never the same path |
| HotkeyEditor.PresetNotCustom | AW_hotkeyEditor.py:238-240 | no preset path is the custom hotkey file, so a reset never copies a file onto itself |
| HotkeyEditor.OddRows | AW_hotkeyEditor.py:138-140 | the rows kept by the removal loop: half of them, rounded down |
| HotkeyEditor.AfterRemovals | AW_hotkeyEditor.py:139-140 | the settings table after `row` passes of the removal loop: the odd rows of the first `2 * row` rows, then the rest untouched (only the odd rows once the loop has run past the end) |
| HotkeyEditor.RemovalStepPair | AW_hotkeyEditor.py:139-140 | while two or more rows lie ahead, a removal drops the even row and keeps the odd one |
| HotkeyEditor.RemovalStepLast | AW_hotkeyEditor.py:139-140 | with one row ahead, the removal drops it and only the odd rows remain |
| HotkeyEditor.RemovalStepDone | AW_hotkeyEditor.py:139-140 | past the end of the table, `removeRow` changes nothing |
| HotkeyEditor.RemovalStep | AW_hotkeyEditor.py:139-140 | each pass of the loop takes the table from the state after `row` passes to the state after `row + 1` |
| HotkeyEditor.RemovalEnds | AW_hotkeyEditor.py:138-140 | before the loop the table is whole; after one pass per original row, only the odd rows are left |
| HotkeyEditor.ScriptRowsNext | AW_hotkeyEditor.py:153-162 | the script rows of the first `i + 1` settings rows are those of the first `i` plus those of row `i` |
| HotkeyEditor.ScriptRowsInsertNext | AW_hotkeyEditor.py:159-162 | inserting row `i`'s script row at `scriptsRow` extends the script rows of the first `i` settings rows by one row |
| HotkeyEditor.HotkeyEditorUI.constructor | AW_hotkeyEditor.py:62-79 | the editor starts with both files present and both tables showing them. A missing custom file is the default preset's copy, a missing ActionScript file is the fresh 13-line file, and every other file is unchanged |
| HotkeyEditor.HotkeyEditorUI.SeedFiles | AW_hotkeyEditor.py:75-79 | creates only the missing files: custom from the default preset, ActionScript from scratch; nothing else changes |
| HotkeyEditor.HotkeyEditorUI.Copy | AW_hotkeyEditor.py:240 | `shutil.copy`: the destination gets the source's text, and nothing else changes |
| HotkeyEditor.HotkeyEditorUI.Remove | AW_hotkeyEditor.py:205 | `os.remove`: the file is gone, and nothing else changes |
| HotkeyEditor.HotkeyEditorUI.Truncate | AW_hotkeyEditor.py:207 | opening for writing leaves an empty file |
| HotkeyEditor.HotkeyEditorUI.Append | AW_hotkeyEditor.py:212-218 | a write appends the chunk to the file |
| HotkeyEditor.HotkeyEditorUI.CreateActionScriptFile | AW_hotkeyEditor.py:183-191 | the ActionScript file becomes the fresh file, the header and slots 1 to 12 in ascending order, written one line per pass |
| HotkeyEditor.HotkeyEditorUI.CustomSettings | AW_hotkeyEditor.py:85-87 | one line per line of the custom file, line `i` being `replacer` of file line `i`; each is normalised and splits into that line's settings row |
| HotkeyEditor.HotkeyEditorUI.GetPathFromFile | AW_hotkeyEditor.py:193-198 | the loop with its early return computes the first-match lookup over the file's lines |
| HotkeyEditor.HotkeyEditorUI.RemoveSettingsRows | AW_hotkeyEditor.py:138-140 | removing rows 0, 1, 2, ... in turn leaves exactly the rows that were at odd positions |
| HotkeyEditor.HotkeyEditorUI.FillTables | AW_hotkeyEditor.py:136-163 | after filling, the settings table is one parsed row per file line, in file order, ahead of what the removal left. The scripts table is one row per script action, in order, ahead of the old script rows |
| HotkeyEditor.HotkeyEditorUI.FillRows | AW_hotkeyEditor.py:142-163 | the counter loop inserts each line's row at `settingsRow` and its script row at `scriptsRow`, which builds the parsed tables in front of the old rows |
| HotkeyEditor.HotkeyEditorUI.FillRow | AW_hotkeyEditor.py:147-162 | one pass inserts the line's settings row, and a script row exactly when its action contains `action.global.script` |
| HotkeyEditor.HotkeyEditorUI.SaveSettings | AW_hotkeyEditor.py:200-229 | the custom file becomes the lines of the settings table and the ActionScript file the lines of the scripts table; no other file changes |
| HotkeyEditor.HotkeyEditorUI.Rewrite | AW_hotkeyEditor.py:204-207 | remove if present, then open for writing: the file exists and is empty |
| HotkeyEditor.HotkeyEditorUI.WriteHotkeyFile | AW_hotkeyEditor.py:204-218 | the custom file becomes exactly the settings table's lines, in row order |
| HotkeyEditor.HotkeyEditorUI.WriteScriptFile | AW_hotkeyEditor.py:220-228 | the ActionScript file becomes the `"[ScriptFiles]\n"` header and the scripts table's lines, in row order |
| HotkeyEditor.HotkeyEditorUI.WriteHotkeyLine | AW_hotkeyEditor.py:209-218 | one pass appends the row's line, chosen by the first of the four cases that applies |
| HotkeyEditor.HotkeyEditorUI.ReplaceCustomFile | AW_hotkeyEditor.py:232-251 | afterwards the custom file equals the chosen preset, no other file changes, and both tables equal the parse of that preset |

## Left out

- The Qt user interface: layouts, menus, buttons, signal wiring, column resizing and the path display (`_layouts` apart from its table set-up, and `_connections`; lines 89-112, 121-124, 126-134, 164-177 and 252-253). Neither table's contents depend on them. The table set-up itself is modelled: lines 113-120 create both tables empty and line 125 calls `_fillTables`, which the constructor does by starting with empty `settings` and `scripts` and calling `FillTables`.
- `openWebsite` (lines 255-257) opens a browser and nothing else.
- `main()` (lines 259-264) and the module-level launch (lines 266-269). After a save, line 230 calls `main()`, which closes every top-level widget named `HotkeyEditor`, the editor included; nothing reopens it. The model keeps the editor's state after `SaveSettings` and does not model closing windows.
- The `HotkeyEditor.widgets` registry class (lines 57-58, 83), which is unrelated to the editor's tables.
- `FBSystem().ConfigPath` and `FBSystem().UserConfigPath` (lines 42-44) come from MotionBuilder's SDK. They are the constructor's `configPath` and `userConfigPath` parameters.
- The unused `customSettings` attribute (lines 73 and 86) is not modelled. Nothing reads it.
- Python 2 text-mode newline translation and encodings are not modelled. Line terminators are part of the text exactly as the code writes them.
- HotkeyEditor.HotkeyEditorUI.constructor: requires the custom file or the default preset to exist. Without either, `shutil.copy` raises, and that failure is not modelled.
- HotkeyEditor.HotkeyEditorUI.ReplaceCustomFile: requires the chosen preset file to exist, for the same reason.
- HotkeyEditor.HotkeyEditorUI.Copy: requires the source to exist and to differ from the destination. Copying a missing file or copying a file onto itself raises in `shutil`.
- HotkeyEditor.HotkeyEditorUI.Remove: requires the file to exist. `os.remove` raises otherwise, and every caller checks `isfile` first.
- HotkeyEditor.HotkeyEditorUI.ReplaceCustomFile: `clearContents` is modelled as blanking every cell before the removal loops. The rows are removed right after, so this is not observable.
- PyText.Strip: whitespace is the six ASCII characters Python 2's `str.strip` removes. In `saveSettings` the cells are Qt strings, whose `strip` also removes other Unicode whitespace; that difference is not modelled.
- HotkeyEditor.Join: modelled only for the relative names the editor joins. Drive letters and absolute second arguments of `os.path.join` are not modelled.
- HotkeyEditor.HotkeyEditorUI.FillRow: a path that is not found is shown as the empty string. The model does not keep the Qt item built from `None` apart from an empty path.
- HotkeyFormat.SavedPathFound: requires the rows before the slot looked up to have `Script<digits>` names different from its own, and no row's stripped name or rstripped path to hold a newline. Rows after it may have any name, such as `ScriptEditor` from an `action.global.scriptEditor` action. The lookup takes the first matching line, and the model proves nothing for an earlier row with a non-digit name or a duplicate name.
- HotkeyFormat.SaveReloadStable: requires well-formed rows: no tab or newline, no '=' in the action, and no cell made only of whitespace. Rows outside this are written as they are and do not reload to the same rows. For example, the row `(" ", "")` is written as `" = "` and CRLF, reads back as `("", "")`, and that row is written as a bare '\n' on the next save (`HotkeyFormat.WhitespaceCellUnstable`).
