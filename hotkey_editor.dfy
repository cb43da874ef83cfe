/**
 * The hotkey editor widget, reduced to its state: a store of files, the
 * "Action / Key Combination" table and the "Script / Path to Script" table.
 * Every file operation the editor performs goes through the store.
 */
module HotkeyEditor {
  import opened Wrappers
  import opened PyText
  import opened HotkeyFormat

  // ------------------------------------------------------------------ paths

  /** The keyboard presets MotionBuilder ships, by the file that holds each. */
  datatype Preset = MotionBuilder | MotionBuilderClassic | Lightwave | Max | Maya | Softimage
  {
    function FileName(): (name: string)
      ensures |name| >= 8 && name[|name| - 4..] == ".txt"
    {
      match this
      case MotionBuilder => "MotionBuilder.txt"
      case MotionBuilderClassic => "MotionBuilder Classic.txt"
      case Lightwave => "Lightwave.txt"
      case Max => "3ds Max.txt"
      case Maya => "Maya.txt"
      case Softimage => "Softimage.txt"
    }
  }

  const CustomHotkeys := "customHotkeys.txt"
  const ActionScriptName := "ActionScript.txt"

  /** `os.path.join` on Windows for a relative file name: a backslash goes between unless `dir` already ends in a separator. */
  function Join(dir: string, name: string): (p: string)
    ensures dir != [] && dir[|dir| - 1] != '\\' && dir[|dir| - 1] != '/' ==> p == dir + "\\" + name
  {
    if dir != [] && dir[|dir| - 1] != '\\' && dir[|dir| - 1] != '/' then dir + "\\" + name else dir + name
  }

  /** DEFAULTCONFIGSPATH: the preset folder under MotionBuilder's configuration path. */
  function DefaultConfigsPath(configPath: string): string {
    configPath + "Keyboard"
  }

  /** KEYBOARDCONFIGPATH: the keyboard folder under the user's configuration path. */
  function KeyboardConfigPath(userConfigPath: string): string {
    userConfigPath + "/Keyboard"
  }

  /** ACTIONSCRIPTPATH: the scripts folder under the user's configuration path. */
  function ActionScriptPath(userConfigPath: string): string {
    userConfigPath + "/Scripts"
  }

  /** A preset's file in the preset folder; the folder name ends in a letter, so a backslash is always inserted. */
  function PresetPath(configPath: string, p: Preset): (r: string)
    ensures r == configPath + "Keyboard\\" + p.FileName()
  {
    Join(DefaultConfigsPath(configPath), p.FileName())
  }

  /** The user's custom hotkey file, `customHotkeys.txt` in the keyboard folder. */
  function CustomKeysPath(userConfigPath: string): (r: string)
    ensures r == userConfigPath + "/Keyboard\\" + CustomHotkeys
  {
    Join(KeyboardConfigPath(userConfigPath), CustomHotkeys)
  }

  /** The user's ActionScript file, `ActionScript.txt` in the scripts folder. */
  function ActionScriptFilePath(userConfigPath: string): (r: string)
    ensures r == userConfigPath + "/Scripts\\" + ActionScriptName
  {
    Join(ActionScriptPath(userConfigPath), ActionScriptName)
  }

  /** The custom hotkey file and the ActionScript file are different files, whatever the user's configuration path. */
  lemma PathsDistinct(userConfigPath: string)
    ensures CustomKeysPath(userConfigPath) != ActionScriptFilePath(userConfigPath)
  {
    var n := |userConfigPath|;
    assert CustomKeysPath(userConfigPath)[n + 1] == 'K';
    assert ActionScriptFilePath(userConfigPath)[n + 1] == 'S';
  }

  /** No preset file is the custom hotkey file, so a reset never copies a file onto itself. */
  lemma PresetNotCustom(configPath: string, userConfigPath: string, p: Preset)
    ensures PresetPath(configPath, p) != CustomKeysPath(userConfigPath)
  {
    var name := p.FileName();
    var x := PresetPath(configPath, p);
    var y := CustomKeysPath(userConfigPath);
    assert x[|x| - 8] == name[|name| - 8];
    assert y[|y| - 8] == 'k';
  }

  // ------------------------------------------------------------- removal

  /** The rows at odd positions of `s`, in order. */
  function OddRows<T>(s: seq<T>): (r: seq<T>)
    ensures |r| == |s| / 2
  {
    seq(|s| / 2, i requires 0 <= i < |s| / 2 => s[2 * i + 1])
  }

  /** The settings table after the removal passes for rows 0 to `row - 1`. */
  function AfterRemovals<T>(s: seq<T>, row: nat): seq<T> {
    if 2 * row <= |s| then OddRows(s[..2 * row]) + s[2 * row..] else OddRows(s)
  }

  /** Deleting the first element after a prefix `a`. */
  lemma DropAt<T>(a: seq<T>, b: seq<T>)
    requires b != []
    ensures (a + b)[..|a|] + (a + b)[|a| + 1..] == a + b[1..]
  {
    assert (a + b)[..|a|] == a;
    assert (a + b)[|a| + 1..] == b[1..];
  }

  /** Two more rows of the table add one more odd row. */
  lemma OddRowsNext<T>(s: seq<T>, k: nat)
    requires 2 * k + 2 <= |s|
    ensures OddRows(s[..2 * k + 2]) == OddRows(s[..2 * k]) + [s[2 * k + 1]]
  {
  }

  /** `a` followed by everything from position `j`: the element at `j` moves into the prefix. */
  lemma ShiftOne<T>(a: seq<T>, s: seq<T>, j: nat)
    requires j < |s|
    ensures a + s[j..] == (a + [s[j]]) + s[j + 1..]
  {
    assert s[j..] == [s[j]] + s[j + 1..];
  }

  /** Before the pass for `row`, with rows still ahead: deleting position `row` drops the even row `2 * row`. */
  lemma RemovalDropEven<T>(s: seq<T>, row: nat)
    requires 2 * row + 1 <= |s|
    ensures var cur := AfterRemovals(s, row);
      row < |cur| && cur[..row] + cur[row + 1..] == OddRows(s[..2 * row]) + s[2 * row + 1..]
  {
    var a := OddRows(s[..2 * row]);
    assert AfterRemovals(s, row) == a + s[2 * row..];
    DropAt(a, s[2 * row..]);
    assert s[2 * row..][1..] == s[2 * row + 1..];
  }

  /** After the pass for `row`, with two rows consumed: the odd row `2 * row + 1` has joined the kept ones. */
  lemma RemovalKeepOdd<T>(s: seq<T>, row: nat)
    requires 2 * row + 2 <= |s|
    ensures AfterRemovals(s, row + 1) == OddRows(s[..2 * row]) + s[2 * row + 1..]
  {
    var a := OddRows(s[..2 * row]);
    OddRowsNext(s, row);
    ShiftOne(a, s, 2 * row + 1);
  }

  /** A removal pass while at least two rows lie ahead: the even row goes, the odd row joins the kept ones. */
  lemma RemovalStepPair<T>(s: seq<T>, row: nat)
    requires 2 * row + 2 <= |s|
    ensures var cur := AfterRemovals(s, row);
      row < |cur| && cur[..row] + cur[row + 1..] == AfterRemovals(s, row + 1)
  {
    RemovalDropEven(s, row);
    RemovalKeepOdd(s, row);
  }

  /** A removal pass with one row ahead: that row goes and only the odd rows are left. */
  lemma RemovalStepLast<T>(s: seq<T>, row: nat)
    requires 2 * row + 1 == |s|
    ensures var cur := AfterRemovals(s, row);
      row < |cur| && cur[..row] + cur[row + 1..] == AfterRemovals(s, row + 1)
  {
    var a := OddRows(s[..2 * row]);
    DropAt(a, s[2 * row..]);
    assert s[2 * row..][1..] == [];
    assert a == OddRows(s);
  }

  /** A removal pass past the end of the table changes nothing. */
  lemma RemovalStepDone<T>(s: seq<T>, row: nat)
    requires |s| <= 2 * row
    ensures var cur := AfterRemovals(s, row);
      |cur| <= row && cur == AfterRemovals(s, row + 1)
  {
    if 2 * row == |s| {
      assert s[..2 * row] == s;
    }
  }

  /** The removal pass for `row` deletes the row at that position if there still is one. */
  lemma RemovalStep<T>(s: seq<T>, row: nat)
    ensures var cur := AfterRemovals(s, row);
      (if row < |cur| then cur[..row] + cur[row + 1..] else cur) == AfterRemovals(s, row + 1)
  {
    if 2 * row + 2 <= |s| {
      RemovalStepPair(s, row);
    } else if 2 * row + 1 == |s| {
      RemovalStepLast(s, row);
    } else {
      RemovalStepDone(s, row);
    }
  }

  /** Before any removal the table is untouched; after a pass per row, only the odd rows are left. */
  lemma RemovalEnds<T>(s: seq<T>)
    ensures AfterRemovals(s, 0) == s
    ensures AfterRemovals(s, |s|) == OddRows(s)
  {
    assert s[..0] == [] && s[0..] == s;
  }

  // ------------------------------------------------------------ the editor

  class HotkeyEditorUI {
    /** ConfigPath and UserConfigPath as the host application reports them. */
    const configPath: string
    const userConfigPath: string
    const mbDefaultFile: string
    const customKeysFile: string
    const actionScriptFile: string

    /** The file system: path to whole text. */
    var files: map<string, string>
    /** The "Action / Key Combination" table. */
    var settings: seq<HotkeyRow>
    /** The "Script / Path to Script" table. */
    var scripts: seq<ScriptRow>

    /** The editor's paths are derived from the configuration paths, and both of its files exist. */
    predicate Valid()
      reads this
    {
      mbDefaultFile == PresetPath(configPath, MotionBuilder) &&
      customKeysFile == CustomKeysPath(userConfigPath) &&
      actionScriptFile == ActionScriptFilePath(userConfigPath) &&
      customKeysFile in files && actionScriptFile in files
    }

    /** The tables show what the two files hold. */
    predicate Loaded()
      reads this
      requires Valid()
    {
      settings == Settings(files[customKeysFile]) &&
      scripts == ScriptRows(settings, Lines(files[actionScriptFile]))
    }

    constructor (configPath: string, userConfigPath: string, store: map<string, string>)
      requires CustomKeysPath(userConfigPath) in store || PresetPath(configPath, MotionBuilder) in store
      ensures Valid() && Loaded()
      ensures this.configPath == configPath && this.userConfigPath == userConfigPath
      ensures files[customKeysFile] ==
        if customKeysFile in store then store[customKeysFile] else store[mbDefaultFile]
      ensures files[actionScriptFile] ==
        if actionScriptFile in store then store[actionScriptFile] else SeedText()
      ensures forall p :: p in files <==> p in store || p == customKeysFile || p == actionScriptFile
      ensures forall p :: p in store && p != customKeysFile && p != actionScriptFile ==> files[p] == store[p]
    {
      this.configPath := configPath;
      this.userConfigPath := userConfigPath;
      mbDefaultFile := Join(DefaultConfigsPath(configPath), "MotionBuilder.txt");
      customKeysFile := Join(KeyboardConfigPath(userConfigPath), CustomHotkeys);
      actionScriptFile := Join(ActionScriptPath(userConfigPath), ActionScriptName);
      files := store;
      settings := [];
      scripts := [];
      new;
      SeedFiles();
      FillTables();
      assert OddRows<HotkeyRow>([]) == [];
    }

    /** The start-up seeding: a missing custom file is copied from the default preset, a missing ActionScript file is created. */
    method SeedFiles()
      requires mbDefaultFile == PresetPath(configPath, MotionBuilder)
      requires customKeysFile == CustomKeysPath(userConfigPath) && actionScriptFile == ActionScriptFilePath(userConfigPath)
      requires customKeysFile in files || mbDefaultFile in files
      modifies this`files
      ensures Valid()
      ensures files[customKeysFile] ==
        if customKeysFile in old(files) then old(files)[customKeysFile] else old(files)[mbDefaultFile]
      ensures files[actionScriptFile] ==
        if actionScriptFile in old(files) then old(files)[actionScriptFile] else SeedText()
      ensures forall p :: p in files <==> p in old(files) || p == customKeysFile || p == actionScriptFile
      ensures forall p :: p in old(files) && p != customKeysFile && p != actionScriptFile ==> files[p] == old(files)[p]
    {
      PathsDistinct(userConfigPath);
      PresetNotCustom(configPath, userConfigPath, MotionBuilder);
      if customKeysFile !in files {
        Copy(mbDefaultFile, customKeysFile);
      }
      if actionScriptFile !in files {
        CreateActionScriptFile();
      }
    }

    // ---- the file system

    /** `shutil.copy`: the destination gets the source's text. */
    method Copy(src: string, dst: string)
      requires src in files && src != dst
      modifies this`files
      ensures files == old(files)[dst := old(files)[src]]
    {
      files := files[dst := files[src]];
    }

    /** `os.remove` */
    method Remove(path: string)
      requires path in files
      modifies this`files
      ensures files == old(files) - {path}
    {
      files := files - {path};
    }

    /** `open(path, 'w')`: the file exists and is empty. */
    method Truncate(path: string)
      modifies this`files
      ensures files == old(files)[path := ""]
    {
      files := files[path := ""];
    }

    /** `f.write(chunk)` on a file opened for writing. */
    method Append(path: string, chunk: string)
      requires path in files
      modifies this`files
      ensures files == old(files)[path := old(files)[path] + chunk]
    {
      files := files[path := files[path] + chunk];
    }

    // ---- operations

    /** Writes a fresh ActionScript file: the header, then one empty slot per number 1 to 12. */
    method CreateActionScriptFile()
      modifies this`files
      ensures files == old(files)[actionScriptFile := SeedText()]
    {
      Truncate(actionScriptFile);
      Append(actionScriptFile, ScriptFilesHeader + CRLF);
      assert "" + (ScriptFilesHeader + CRLF) == Concat(SeedLines()[..1]);
      for i := 1 to SlotCount + 1
        invariant files == old(files)[actionScriptFile := Concat(SeedLines()[..i])]
      {
        Append(actionScriptFile, ScriptPrefix + DecimalString(i) + " = " + CRLF);
        SeedLineAt(i);
        ConcatNext(SeedLines(), i);
      }
      assert SeedLines()[..|SeedLines()|] == SeedLines();
    }

    /** The settings lines as `_getCustomSettings` returns them: each line of the custom file, normalised. */
    function CustomSettings(): (r: seq<string>)
      reads this
      requires Valid()
      ensures |r| == |Lines(files[customKeysFile])|
      ensures forall i :: 0 <= i < |r| ==> r[i] == Replacer(Lines(files[customKeysFile])[i])
      ensures forall i :: 0 <= i < |r| ==> Normalised(r[i]) && ParseRow(r[i]) == Settings(files[customKeysFile])[i]
    {
      var lines := Lines(files[customKeysFile]);
      seq(|lines|, i requires 0 <= i < |lines| => Replacer(lines[i]))
    }

    /** The path of the first line of `path` that starts with `Script<num>`, or None. */
    method GetPathFromFile(path: string, num: string) returns (r: Option<string>)
      requires path in files
      ensures r == FindPath(Lines(files[path]), num)
    {
      var scriptContents := Lines(files[path]);
      var prefix := ScriptPrefix + num;
      for i := 0 to |scriptContents|
        invariant forall j :: 0 <= j < i ==> !StartsWith(scriptContents[j], prefix)
      {
        if StartsWith(scriptContents[i], prefix) {
          FindPathFirst(scriptContents, num, i);
          return Some(PathOf(scriptContents[i]));
        }
      }
      return None;
    }

    /** Removes rows 0, 1, 2, ... of the settings table in turn; as rows shift up, every other row survives. */
    method RemoveSettingsRows()
      modifies this`settings
      ensures settings == OddRows(old(settings))
    {
      var allRows := |settings|;
      ghost var s := settings;
      RemovalEnds(s);
      for row := 0 to allRows
        invariant settings == AfterRemovals(s, row)
      {
        RemovalStep(s, row);
        if row < |settings| {
          settings := settings[..row] + settings[row + 1..];
        }
      }
    }

    /**
     * Fills the tables from the custom hotkey file: one settings row per line, inserted
     * in file order ahead of any rows left over, and one script row per script action,
     * inserted ahead of the script rows already there.
     */
    method FillTables()
      requires Valid()
      modifies this`settings, this`scripts
      ensures settings == Settings(files[customKeysFile]) + OddRows(old(settings))
      ensures scripts == ScriptRows(Settings(files[customKeysFile]), Lines(files[actionScriptFile])) + old(scripts)
    {
      RemoveSettingsRows();
      var lines := CustomSettings();
      FillRows(lines, Settings(files[customKeysFile]));
    }

    /** The loop of `_fillTables` over the normalised lines, whose parsed rows are `rows`. */
    method FillRows(lines: seq<string>, ghost rows: seq<HotkeyRow>)
      requires Valid()
      requires |rows| == |lines| && forall k :: 0 <= k < |lines| ==> ParseRow(lines[k]) == rows[k]
      modifies this`settings, this`scripts
      ensures settings == rows + old(settings)
      ensures scripts == ScriptRows(rows, Lines(files[actionScriptFile])) + old(scripts)
    {
      var settingsRow := 0;
      var scriptsRow := 0;
      ghost var scriptLines := Lines(files[actionScriptFile]);
      ghost var leftover := settings;
      ghost var oldScripts := scripts;
      for i := 0 to |lines|
        invariant settingsRow == i
        invariant settings == rows[..i] + leftover
        invariant scriptsRow == |ScriptRows(rows[..i], scriptLines)|
        invariant scripts == ScriptRows(rows[..i], scriptLines) + oldScripts
      {
        var added := FillRow(lines[i], settingsRow, scriptsRow);
        InsertNext(rows, i, leftover);
        ScriptRowsInsertNext(rows, i, scriptLines, oldScripts);
        scriptsRow := scriptsRow + added;
        settingsRow := settingsRow + 1;
      }
      assert rows[..|rows|] == rows;
    }

    /**
     * One pass of the loop in `_fillTables`: the settings row for `line` goes in at
     * `settingsRow`, and its script row, if the action names a script, at `scriptsRow`.
     */
    method FillRow(line: string, settingsRow: nat, scriptsRow: nat) returns (added: nat)
      requires Valid() && settingsRow <= |settings| && scriptsRow <= |scripts|
      modifies this`settings, this`scripts
      ensures settings == old(settings)[..settingsRow] + [ParseRow(line)] + old(settings)[settingsRow..]
      ensures var more := ScriptRowsOf(ParseRow(line), Lines(files[actionScriptFile]));
        added == |more| && scripts == old(scripts)[..scriptsRow] + more + old(scripts)[scriptsRow..]
    {
      var action := Partition(line, "=").head;
      var key := Partition(line, "=").tail;
      settings := settings[..settingsRow] + [HotkeyRow(action, key)] + settings[settingsRow..];
      added := 0;
      if Contains(action, ScriptAction) {
        var num := Partition(action, ScriptAction).tail;
        var scriptPath := GetPathFromFile(actionScriptFile, num);
        scripts := scripts[..scriptsRow] + [ScriptRow(ScriptPrefix + num, scriptPath.GetOr(""))] + scripts[scriptsRow..];
        added := 1;
      }
    }

    /** Writes the settings table to the custom hotkey file and the scripts table to the ActionScript file. */
    method SaveSettings()
      requires Valid()
      modifies this`files
      ensures Valid()
      ensures files == old(files)[customKeysFile := HotkeyText(settings)][actionScriptFile := ScriptText(scripts)]
      ensures files[customKeysFile] == HotkeyText(settings) && files[actionScriptFile] == ScriptText(scripts)
    {
      PathsDistinct(userConfigPath);
      WriteHotkeyFile();
      WriteScriptFile();
    }

    /** `os.remove` when the file exists, then `open(path, 'w')`. */
    method Rewrite(path: string)
      modifies this`files
      ensures files == old(files)[path := ""]
    {
      if path in files {
        Remove(path);
      }
      Truncate(path);
    }

    /** The first half of `saveSettings`: one line per settings row, in table order. */
    method WriteHotkeyFile()
      modifies this`files
      ensures files == old(files)[customKeysFile := HotkeyText(settings)]
    {
      var settingsRows := |settings|;
      Rewrite(customKeysFile);
      ghost var base := files;
      assert HotkeyText(settings[..0]) == "";
      for x := 0 to settingsRows
        invariant files == base[customKeysFile := HotkeyText(settings[..x])]
      {
        WriteHotkeyLine(settings[x]);
        HotkeyTextNext(settings, x);
      }
      assert settings[..|settings|] == settings;
    }

    /** The second half of `saveSettings`: the header, then one line per script row, in table order. */
    method WriteScriptFile()
      modifies this`files
      ensures files == old(files)[actionScriptFile := ScriptText(scripts)]
    {
      var scriptsRows := |scripts|;
      Rewrite(actionScriptFile);
      ghost var base := files;
      Append(actionScriptFile, ScriptFilesHeader + "\n");
      ScriptTextEmpty();
      assert "" + (ScriptFilesHeader + "\n") == ScriptFilesHeader + "\n";
      assert scripts[..0] == [];
      for y := 0 to scriptsRows
        invariant files == base[actionScriptFile := ScriptText(scripts[..y])]
      {
        var scriptItem := scripts[y].name;
        var pathItem := scripts[y].path;
        Append(actionScriptFile, Strip(scriptItem) + " = " + (RStrip(pathItem) + " " + CRLF));
        ScriptTextNext(scripts, y);
      }
      assert scripts[..|scripts|] == scripts;
    }

    /** One pass of the first loop of `saveSettings`: the line for `row`, by the first case that applies. */
    method WriteHotkeyLine(row: HotkeyRow)
      requires customKeysFile in files
      modifies this`files
      ensures files == old(files)[customKeysFile := old(files)[customKeysFile] + HotkeyLine(row)]
    {
      var actionItem := row.action;
      var keyItem := row.key;
      if '[' in actionItem && keyItem == "" {
        Append(customKeysFile, Strip(actionItem) + CRLF);
      } else if actionItem != "" && keyItem != "" {
        Append(customKeysFile, Strip(actionItem) + " = " + Strip(keyItem) + CRLF);
      } else if actionItem != "" && keyItem == "" {
        Append(customKeysFile, Strip(actionItem) + " = " + CRLF);
      } else {
        Append(customKeysFile, "\n");
      }
    }

    /** Replaces the custom hotkey file by the chosen preset, empties both tables and fills them again. */
    method ReplaceCustomFile(replacement: Preset)
      requires Valid() && PresetPath(configPath, replacement) in files
      modifies this`files, this`settings, this`scripts
      ensures Valid() && Loaded()
      ensures files == old(files)[customKeysFile := old(files)[PresetPath(configPath, replacement)]]
    {
      var copyFile := Join(DefaultConfigsPath(configPath), replacement.FileName());
      var newFile := Join(KeyboardConfigPath(userConfigPath), CustomHotkeys);
      PresetNotCustom(configPath, userConfigPath, replacement);
      Copy(copyFile, newFile);

      settings := seq(|settings|, _ => HotkeyRow("", ""));
      scripts := seq(|scripts|, _ => ScriptRow("", ""));
      while |settings| > 0
        modifies this`settings
        decreases |settings|
      {
        settings := settings[1..];
      }
      while |scripts| > 0
        modifies this`scripts
        decreases |scripts|
      {
        scripts := scripts[1..];
      }
      FillTables();
      assert OddRows<HotkeyRow>([]) == [];
    }
  }

  /** Inserting row `i` after the first `i` rows extends the prefix by one. */
  lemma InsertNext<T>(rows: seq<T>, i: int, leftover: seq<T>)
    requires 0 <= i < |rows|
    ensures (rows[..i] + leftover)[..i] + [rows[i]] + (rows[..i] + leftover)[i..] == rows[..i + 1] + leftover
  {
    var c := rows[..i] + leftover;
    assert c[..i] == rows[..i];
    assert c[i..] == leftover;
    assert rows[..i + 1] == rows[..i] + [rows[i]];
  }

  /** The script rows of row `i`, inserted after those of the first `i` rows, are the script rows of the first `i + 1`. */
  lemma ScriptRowsInsertNext(rows: seq<HotkeyRow>, i: int, scriptLines: seq<string>, oldScripts: seq<ScriptRow>)
    requires 0 <= i < |rows|
    ensures var a := ScriptRows(rows[..i], scriptLines);
      var c := a + oldScripts;
      c[..|a|] + ScriptRowsOf(rows[i], scriptLines) + c[|a|..] == ScriptRows(rows[..i + 1], scriptLines) + oldScripts
  {
    var a := ScriptRows(rows[..i], scriptLines);
    var c := a + oldScripts;
    assert c[..|a|] == a;
    assert c[|a|..] == oldScripts;
    ScriptRowsNext(rows, i, scriptLines);
  }

  /** The script rows of the first `i + 1` settings rows: those of the first `i`, then those of row `i`. */
  lemma ScriptRowsNext(rows: seq<HotkeyRow>, i: int, scriptLines: seq<string>)
    requires 0 <= i < |rows|
    ensures ScriptRows(rows[..i + 1], scriptLines) == ScriptRows(rows[..i], scriptLines) + ScriptRowsOf(rows[i], scriptLines)
  {
    assert rows[..i + 1] == rows[..i] + [rows[i]];
    ScriptRowsAppend(rows[..i], [rows[i]], scriptLines);
    assert [rows[i]][1..] == [];
  }
}
