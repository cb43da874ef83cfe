/**
 * The line-oriented text formats of MotionBuilder's custom hotkey file and of
 * the ActionScript file that binds `action.global.scriptN` actions to script
 * paths, as the hotkey editor reads and writes them.
 */
module HotkeyFormat {
  import opened Wrappers
  import opened PyText

  /** One row of the "Action / Key Combination" table. */
  datatype HotkeyRow = HotkeyRow(action: string, key: string)

  /** One row of the "Script / Path to Script" table. */
  datatype ScriptRow = ScriptRow(name: string, path: string)

  const ScriptAction := "action.global.script"
  const ScriptPrefix := "Script"
  const ScriptFilesHeader := "[ScriptFiles]"
  const CRLF := "\r\n"
  /** The number of script slots a fresh ActionScript file holds. */
  const SlotCount := 12

  // ---------------------------------------------------------------- reading

  /** A line as `replacer` leaves it: no tab anywhere, no whitespace at either end. */
  predicate Normalised(s: string) {
    '\t' !in s && NoEdgeSpace(s)
  }

  /** `replacer`: strip surrounding whitespace, then delete every tab. */
  function Replacer(s: string): (r: string)
    ensures Normalised(r)
  {
    WithoutKeepsEnds(Strip(s), '\t');
    Without(Strip(s), '\t')
  }

  /** Deleting a character that stands at neither end keeps both ends. */
  lemma WithoutKeepsEnds(t: string, c: char)
    requires t == [] || (t[0] != c && t[|t| - 1] != c)
    ensures var r := Without(t, c);
      (t == [] <==> r == []) && (t != [] ==> r[0] == t[0] && r[|r| - 1] == t[|t| - 1])
  {
    if t != [] {
      WithoutAppend(t[..|t| - 1], [t[|t| - 1]], c);
      assert t == t[..|t| - 1] + [t[|t| - 1]];
    }
  }

  lemma {:induction false} WithoutAppend(a: string, b: string, c: char)
    ensures Without(a + b, c) == Without(a, c) + Without(b, c)
  {
    if a != [] {
      var head := if a[0] == c then [] else [a[0]];
      assert (a + b)[1..] == a[1..] + b;
      assert Without(a + b, c) == head + Without(a[1..] + b, c);
      WithoutAppend(a[1..], b, c);
    } else {
      assert a + b == b;
    }
  }

  /** Two non-empty normalised pieces joined by a tab-free middle make a normalised line. */
  lemma NormalisedJoin(x: string, mid: string, y: string)
    requires Normalised(x) && Normalised(y) && x != [] && y != [] && '\t' !in mid
    ensures Normalised(x + mid + y)
  {
    var m := x + mid + y;
    assert m[0] == x[0] && m[|m| - 1] == y[|y| - 1];
    forall k | 0 <= k < |m| ensures m[k] != '\t' {
      if k < |x| {
        assert m[k] == x[k];
      } else if k < |x| + |mid| {
        assert m[k] == mid[k - |x|];
      } else {
        assert m[k] == y[k - |x| - |mid|];
      }
    }
  }

  /** A line that is already normalised is left alone. */
  lemma NormalisedFixed(s: string)
    requires Normalised(s)
    ensures Replacer(s) == s
  {
    assert LStrip(s) == s;
    assert RStrip(s) == s;
  }

  /** `replacer` is idempotent. */
  lemma ReplacerIdempotent(s: string)
    ensures Replacer(Replacer(s)) == Replacer(s)
  {
    NormalisedFixed(Replacer(s));
  }

  /** `replacer` keeps the inner characters in order: `" a\tb "` normalises to `"ab"`. */
  lemma ReplacerExample()
    ensures Replacer(" a\tb ") == "ab"
  {
    StripPadded(" ", "a\tb", " ");
    assert " " + "a\tb" + " " == " a\tb ";
    TabDropExample();
  }

  lemma TabDropExample()
    ensures Without("a\tb", '\t') == "ab"
  {
    WithoutCons('\t', "b", '\t');
    WithoutCons('a', "\tb", '\t');
    assert "a\tb" == ['a'] + "\tb";
  }

  /** `Without` unfolded once, for a text written as its first character and the rest. */
  lemma WithoutCons(x: char, t: string, c: char)
    ensures Without([x] + t, c) == (if x == c then [] else [x]) + Without(t, c)
  {
    assert ([x] + t)[1..] == t;
  }

  /** The cells `_fillTables` fills from a normalised line: `line.partition('=')[0]` and `[2]`. */
  function ParseRow(line: string): (r: HotkeyRow)
    ensures '=' !in r.action
    ensures '=' in line ==> r.action + "=" + r.key == line
    ensures '=' !in line ==> r == HotkeyRow(line, "")
  {
    PartitionChar(line, '=');
    var p := Partition(line, "=");
    HotkeyRow(p.head, p.tail)
  }

  /** ParseRow inverts `action + "=" + key` whenever the action holds no '='. */
  lemma ParseRowOf(action: string, key: string)
    requires '=' !in action
    ensures ParseRow(action + "=" + key) == HotkeyRow(action, key)
  {
    var line := action + "=" + key;
    var r := ParseRow(line);
    assert line[|action|] == '=';
    assert |r.action| == |action|;
    assert r.action == line[..|action|] == action;
    assert r.key == line[|action| + 1..] == key;
  }

  /** A line with several '=' splits at the first one only. */
  lemma SplitAtFirstEquals()
    ensures ParseRow("foo = bar = baz") == HotkeyRow("foo ", " bar = baz")
  {
    var action, key := "foo ", " bar = baz";
    assert action + "=" + key == "foo = bar = baz";
    assert '=' !in action by {
      assert forall k :: 0 <= k < |action| ==> action[k] != '=';
    }
    ParseRowOf(action, key);
  }

  /** The settings table `_fillTables` builds: one row per line of the file, in file order. */
  function ParseRows(lines: seq<string>): (rows: seq<HotkeyRow>)
    ensures |rows| == |lines|
    ensures forall i :: 0 <= i < |lines| ==> rows[i] == ParseRow(Replacer(lines[i]))
  {
    if lines == [] then []
    else
      [ParseRow(Replacer(lines[0]))] + ParseRows(lines[1..])
  }

  /** The settings table for a custom hotkey file holding `text`. */
  function Settings(text: string): (r: seq<HotkeyRow>)
    ensures |r| == |Lines(text)|
  {
    ParseRows(Lines(text))
  }

  // ------------------------------------------------------------ script rows

  /** `'action.global.script' in action` */
  predicate IsScriptAction(action: string) {
    Contains(action, ScriptAction)
  }

  /** The script number: everything after the first `action.global.script` in the action. */
  function ScriptNumber(action: string): (num: string)
    requires IsScriptAction(action)
    ensures |num| + |ScriptAction| <= |action| && action[|action| - |num|..] == num
    ensures FirstOccurrence(action, ScriptAction, |action| - |num| - |ScriptAction|)
  {
    var p := Partition(action, ScriptAction);
    assert action[|action| - |p.tail|..] == p.tail;
    p.tail
  }

  /** `i` is the first of `lines` that starts with `prefix`. */
  predicate IsFirstMatch(lines: seq<string>, prefix: string, i: int) {
    0 <= i < |lines| && StartsWith(lines[i], prefix) &&
    forall j :: 0 <= j < i ==> !StartsWith(lines[j], prefix)
  }

  /** The text after the first " = " of a script line. */
  function PathOf(line: string): string {
    Partition(line, " = ").tail
  }

  /**
   * `getPathFromFile` over the lines of the ActionScript file: the path of the
   * first line starting with `"Script" + num`, or None when no line does.
   */
  function FindPath(lines: seq<string>, num: string): (r: Option<string>)
    ensures r.None? <==> forall i :: 0 <= i < |lines| ==> !StartsWith(lines[i], ScriptPrefix + num)
  {
    if lines == [] then None
    else if StartsWith(lines[0], ScriptPrefix + num) then Some(PathOf(lines[0]))
    else FindPath(lines[1..], num)
  }

  /** When line `i` is the first to start with `"Script" + num`, the lookup returns its path. */
  lemma {:induction false} FindPathFirst(lines: seq<string>, num: string, i: int)
    requires IsFirstMatch(lines, ScriptPrefix + num, i)
    ensures FindPath(lines, num) == Some(PathOf(lines[i]))
  {
    if i > 0 {
      assert IsFirstMatch(lines[1..], ScriptPrefix + num, i - 1);
      FindPathFirst(lines[1..], num, i - 1);
    }
  }

  /** The script row for a script action: `"Script" + num` and its path ("" when none is found). */
  function ScriptRowFor(action: string, scriptLines: seq<string>): ScriptRow
    requires IsScriptAction(action)
  {
    var num := ScriptNumber(action);
    ScriptRow(ScriptPrefix + num, FindPath(scriptLines, num).GetOr(""))
  }

  /** The script rows one settings row contributes: one for a script action, none otherwise. */
  function ScriptRowsOf(row: HotkeyRow, scriptLines: seq<string>): (r: seq<ScriptRow>)
    ensures |r| <= 1 && (|r| == 1 <==> IsScriptAction(row.action))
  {
    if IsScriptAction(row.action) then [ScriptRowFor(row.action, scriptLines)] else []
  }

  /** The scripts table `_fillTables` builds alongside the settings `rows`. */
  function ScriptRows(rows: seq<HotkeyRow>, scriptLines: seq<string>): (r: seq<ScriptRow>)
    ensures |r| <= |rows|
  {
    if rows == [] then [] else ScriptRowsOf(rows[0], scriptLines) + ScriptRows(rows[1..], scriptLines)
  }

  /** Script rows keep the order of their settings rows: the table of a concatenation is the concatenation. */
  lemma {:induction false} ScriptRowsAppend(a: seq<HotkeyRow>, b: seq<HotkeyRow>, scriptLines: seq<string>)
    ensures ScriptRows(a + b, scriptLines) == ScriptRows(a, scriptLines) + ScriptRows(b, scriptLines)
  {
    if a == [] {
      assert a + b == b;
    } else {
      assert (a + b)[1..] == a[1..] + b;
      ScriptRowsAppend(a[1..], b, scriptLines);
    }
  }

  /** A script row is there exactly when some settings row has a script action that yields it. */
  lemma {:induction false} ScriptRowsMembers(rows: seq<HotkeyRow>, scriptLines: seq<string>, s: ScriptRow)
    ensures s in ScriptRows(rows, scriptLines) <==>
      exists i :: 0 <= i < |rows| && IsScriptAction(rows[i].action) && s == ScriptRowFor(rows[i].action, scriptLines)
  {
    if rows != [] {
      ScriptRowsMembers(rows[1..], scriptLines, s);
      if s in ScriptRows(rows[1..], scriptLines) {
        var i :| 0 <= i < |rows[1..]| && IsScriptAction(rows[1..][i].action) &&
          s == ScriptRowFor(rows[1..][i].action, scriptLines);
        assert rows[i + 1] == rows[1..][i];
      }
      if exists i :: 0 <= i < |rows| && IsScriptAction(rows[i].action) && s == ScriptRowFor(rows[i].action, scriptLines) {
        var i :| 0 <= i < |rows| && IsScriptAction(rows[i].action) && s == ScriptRowFor(rows[i].action, scriptLines);
        if i > 0 {
          assert rows[1..][i - 1] == rows[i];
        }
      }
    }
  }

  // ---------------------------------------------------------------- writing

  /** The line `saveSettings` writes for one settings row; the first case that applies wins. */
  function HotkeyLine(row: HotkeyRow): string {
    if '[' in row.action && row.key == "" then
      Strip(row.action) + CRLF
    else if row.action != "" && row.key != "" then
      Strip(row.action) + " = " + Strip(row.key) + CRLF
    else if row.action != "" && row.key == "" then
      Strip(row.action) + " = " + CRLF
    else
      "\n"
  }

  /** A row with an empty action is written as a bare '\n'; every other row as a line ended by CRLF. */
  lemma HotkeyLineEnds(row: HotkeyRow)
    ensures row.action == "" <==> HotkeyLine(row) == "\n"
    ensures row.action != "" ==> |HotkeyLine(row)| >= 2 && HotkeyLine(row)[|HotkeyLine(row)| - 2..] == CRLF
  {
    if row.action != "" {
      var line := HotkeyLine(row);
      assert line[|line| - 2..] == CRLF;
    }
  }

  /** A newline-free body ended by CRLF is one line. */
  lemma CRLFLine(body: string)
    requires '\n' !in body
    ensures IsLine(body + CRLF)
  {
    assert (body + CRLF)[..|body| + 1] == body + "\r";
  }

  /** Stripping a newline-free cell leaves it newline-free. */
  lemma StripNoNewline(s: string)
    requires '\n' !in s
    ensures '\n' !in Strip(s)
  {
    StripNoNewChars(s);
  }

  /** A newline-free cell, stripped and followed by `tail` and CRLF, is one line. */
  lemma StrippedLine(cell: string, tail: string)
    requires '\n' !in cell && '\n' !in tail
    ensures IsLine(Strip(cell) + tail + CRLF)
  {
    StripNoNewline(cell);
    var body := Strip(cell) + tail;
    assert forall k :: 0 <= k < |body| ==> body[k] != '\n' by {
      forall k | 0 <= k < |body| ensures body[k] != '\n' {
        if k >= |Strip(cell)| {
          assert body[k] == tail[k - |Strip(cell)|];
        }
      }
    }
    CRLFLine(body);
  }

  /** Every settings row is written as exactly one line, provided its cells hold no newline. */
  lemma HotkeyLineIsLine(row: HotkeyRow)
    requires '\n' !in row.action && '\n' !in row.key
    ensures IsLine(HotkeyLine(row))
  {
    if '[' in row.action && row.key == "" {
      StrippedLine(row.action, "");
      assert Strip(row.action) + "" == Strip(row.action);
    } else if row.action != "" && row.key != "" {
      StripNoNewline(row.key);
      StrippedLine(row.action, " = " + Strip(row.key));
      assert Strip(row.action) + " = " + Strip(row.key) == Strip(row.action) + (" = " + Strip(row.key));
    } else if row.action != "" {
      StrippedLine(row.action, " = ");
    }
  }

  function HotkeyLines(rows: seq<HotkeyRow>): seq<string> {
    seq(|rows|, i requires 0 <= i < |rows| => HotkeyLine(rows[i]))
  }

  /** The custom hotkey file `saveSettings` writes for the settings table `rows`. */
  function HotkeyText(rows: seq<HotkeyRow>): string {
    Concat(HotkeyLines(rows))
  }

  /** The line `saveSettings` writes for one script row: its path is followed by a space and CRLF. */
  function ScriptLine(row: ScriptRow): (r: string)
    ensures |r| >= 3 && r[|r| - 3..] == " " + CRLF
  {
    Strip(row.name) + " = " + (RStrip(row.path) + " " + CRLF)
  }

  /** The lines `saveSettings` writes to the ActionScript file: the header, ended by a bare '\n', then one per script row. */
  function ScriptFileLines(rows: seq<ScriptRow>): seq<string> {
    seq(|rows| + 1, k requires 0 <= k <= |rows| => if k == 0 then ScriptFilesHeader + "\n" else ScriptLine(rows[k - 1]))
  }

  /** The ActionScript file `saveSettings` writes: a header ended by a bare '\n', then one line per script row. */
  function ScriptText(rows: seq<ScriptRow>): string {
    Concat(ScriptFileLines(rows))
  }

  /** The line `createActionScriptFile` writes for slot `i`. */
  function SlotLine(i: nat): string {
    ScriptPrefix + DecimalString(i) + " = " + CRLF
  }

  /** The lines of a freshly created ActionScript file: the header, then slots 1 to 12. */
  function SeedLines(): (r: seq<string>)
    ensures |r| == SlotCount + 1
  {
    [ScriptFilesHeader + CRLF] + seq(SlotCount, i requires 0 <= i < SlotCount => SlotLine(i + 1))
  }

  function SeedText(): string {
    Concat(SeedLines())
  }

  // ------------------------------------------------------------ round trips

  /** `replacer` removes trailing whitespace (such as a line terminator) behind a normalised text. */
  lemma ReplacerPadded(x: string, t: string)
    requires Normalised(x) && x != [] && AllSpace(t)
    ensures Replacer(x + t) == x
  {
    StripPadded([], x, t);
    assert [] + x + t == x + t;
  }

  /** A line read from a file normalises to a text without newlines. */
  lemma ReplacerNoNewline(line: string)
    requires IsReadLine(line)
    ensures '\n' !in Replacer(line)
  {
    var t := Strip(line);
    var i :| Trims(line, t, i);
    forall k | 0 <= k < |t| ensures t[k] != '\n' {
      assert t[k] == line[i + k];
      if i + k < |line| - 1 {
        assert line[..|line| - 1][i + k] == line[i + k];
      }
    }
    WithoutNoNewChars(t, '\t');
  }

  /** A section line: normalised, holding a '[' and no '='. It reads as a header row and is written back unchanged. */
  lemma SectionLineRoundTrip(line: string)
    requires Normalised(line) && '[' in line && '=' !in line
    ensures ParseRow(Replacer(line)) == HotkeyRow(line, "")
    ensures HotkeyLine(ParseRow(Replacer(line))) == line + CRLF
  {
    NormalisedFixed(line);
    StripFixed(line);
  }

  /** A header line `[name]` parses to `("[name]", "")` and is written back as `[name]` + CRLF. */
  lemma HeaderRoundTrip(name: string)
    requires '=' !in name && '\t' !in name
    ensures ParseRow(Replacer("[" + name + "]")) == HotkeyRow("[" + name + "]", "")
    ensures HotkeyLine(ParseRow(Replacer("[" + name + "]"))) == "[" + name + "]" + CRLF
  {
    var line := "[" + name + "]";
    assert line[0] == '[' && line[|line| - 1] == ']';
    SectionLineRoundTrip(line);
  }

  /**
   * A row whose save is stable under reloading: no newline or tab in either cell,
   * no '=' in the action, and neither cell made of whitespace only.
   */
  predicate WellFormed(row: HotkeyRow) {
    '\n' !in row.action && '\n' !in row.key && '\t' !in row.action && '\t' !in row.key &&
    '=' !in row.action &&
    (row.action == "" || Strip(row.action) != "") && (row.key == "" || Strip(row.key) != "")
  }

  /** Every row parsed from a line of a file is well formed. */
  lemma LoadedRowWellFormed(line: string)
    requires IsReadLine(line)
    ensures WellFormed(ParseRow(Replacer(line)))
  {
    var l := Replacer(line);
    ReplacerNoNewline(line);
    var r := ParseRow(l);
    if r.action != "" {
      assert r.action[0] == l[0];
      StripEmpty(r.action);
    }
    if r.key != "" {
      assert '=' in l;
      assert r.key[|r.key| - 1] == l[|l| - 1];
      StripEmpty(r.key);
    }
  }

  /** Every row of a loaded settings table is well formed. */
  lemma SettingsWellFormed(text: string)
    ensures forall i :: 0 <= i < |Settings(text)| ==> WellFormed(Settings(text)[i])
  {
    var lines := Lines(text);
    forall i | 0 <= i < |lines| ensures WellFormed(Settings(text)[i]) {
      LoadedRowWellFormed(lines[i]);
    }
  }

  /** What reading back the line written for `row` gives. */
  function Reloaded(row: HotkeyRow): HotkeyRow {
    ParseRow(Replacer(HotkeyLine(row)))
  }

  /** Both cells equal up to surrounding whitespace. */
  predicate SameStripped(x: HotkeyRow, y: HotkeyRow) {
    Strip(x.action) == Strip(y.action) && Strip(x.key) == Strip(y.key)
  }

  /** The stripped action of a header row is a normalised section line. */
  lemma HeaderRowLine(row: HotkeyRow)
    requires WellFormed(row) && '[' in row.action && row.key == ""
    ensures var sa := Strip(row.action);
      Normalised(sa) && '[' in sa && '=' !in sa && HotkeyLine(row) == sa + CRLF
  {
    StripKeepsSolid(row.action, '[');
    StripNoNewChars(row.action);
  }

  /** A header row reads back as its stripped action with an empty key. */
  lemma HeaderRowBack(row: HotkeyRow)
    requires WellFormed(row) && '[' in row.action && row.key == ""
    ensures Reloaded(row) == HotkeyRow(Strip(row.action), "")
  {
    var sa := Strip(row.action);
    HeaderRowLine(row);
    ReplacerPadded(sa, CRLF);
    assert Reloaded(row) == ParseRow(Replacer(sa + CRLF));
  }

  lemma HeaderRowRewritten(row: HotkeyRow)
    requires WellFormed(row) && '[' in row.action && row.key == ""
    ensures HotkeyLine(Reloaded(row)) == HotkeyLine(row)
  {
    HeaderRowBack(row);
    HeaderRowLine(row);
    StripFixed(Strip(row.action));
  }

  lemma HeaderRowSame(row: HotkeyRow)
    requires WellFormed(row) && '[' in row.action && row.key == ""
    ensures SameStripped(Reloaded(row), row)
  {
    HeaderRowBack(row);
    HeaderRowLine(row);
    StripFixed(Strip(row.action));
  }

  /** The stripped cell of a well-formed row is normalised. */
  lemma StrippedCell(cell: string)
    requires '\t' !in cell && '\n' !in cell
    ensures Normalised(Strip(cell)) && '\n' !in Strip(cell)
  {
    StripNoNewChars(cell);
  }

  /** An action followed by the space `saveSettings` writes strips back to the action. */
  lemma PaddedAction(sa: string)
    requires NoEdgeSpace(sa) && sa != []
    ensures Strip(sa + " ") == sa
  {
    StripPadded([], sa, " ");
    assert [] + sa + " " == sa + " ";
  }

  /** A key preceded by the space `saveSettings` writes strips back to the key. */
  lemma PaddedKey(sk: string)
    requires NoEdgeSpace(sk) && sk != []
    ensures Strip(" " + sk) == sk
  {
    StripPadded(" ", sk, []);
    assert " " + sk + [] == " " + sk;
  }

  /** Appending a space adds no character other than the space. */
  lemma AppendSpace(sa: string, c: char)
    requires c != ' ' && c !in sa
    ensures c !in sa + " "
  {
    assert forall k :: 0 <= k < |sa| ==> (sa + " ")[k] == sa[k];
  }

  // ---- assignment rows: both cells non-empty

  /** The written line of an assignment row, and what its stripped cells look like. */
  lemma AssignmentRowLine(row: HotkeyRow)
    requires WellFormed(row) && row.action != "" && row.key != ""
    ensures var sa, sk := Strip(row.action), Strip(row.key);
      sa != [] && sk != [] && Normalised(sa + " = " + sk) && '=' !in sa &&
      NoEdgeSpace(sa) && NoEdgeSpace(sk) && HotkeyLine(row) == sa + " = " + sk + CRLF
  {
    StrippedCell(row.action);
    StrippedCell(row.key);
    StripNoNewChars(row.action);
    NormalisedJoin(Strip(row.action), " = ", Strip(row.key));
  }

  /** `a = k` is `a ` and ` k` either side of '='. */
  lemma AroundEquals(sa: string, sk: string)
    ensures sa + " = " + sk == (sa + " ") + "=" + (" " + sk)
  {
    var m := sa + " = " + sk;
    assert m[..|sa| + 1] == sa + " ";
    assert m[|sa| + 1] == '=';
    assert m[|sa| + 2..] == " " + sk;
    assert m == m[..|sa| + 1] + [m[|sa| + 1]] + m[|sa| + 2..];
  }

  /** `a = k` read back splits into `a ` and ` k`. */
  lemma AssignmentLineParse(sa: string, sk: string)
    requires sa != [] && Normalised(sa + " = " + sk) && '=' !in sa
    ensures ParseRow(Replacer(sa + " = " + sk + CRLF)) == HotkeyRow(sa + " ", " " + sk)
  {
    ReplacerPadded(sa + " = " + sk, CRLF);
    AroundEquals(sa, sk);
    AppendSpace(sa, '=');
    ParseRowOf(sa + " ", " " + sk);
  }

  /** The row read back for `a ` and ` k` is written as `a = k` + CRLF. */
  lemma AssignmentLineOf(sa: string, sk: string)
    requires NoEdgeSpace(sa) && sa != [] && NoEdgeSpace(sk) && sk != []
    ensures HotkeyLine(HotkeyRow(sa + " ", " " + sk)) == sa + " = " + sk + CRLF
  {
    var row := HotkeyRow(sa + " ", " " + sk);
    assert |row.action| > 0 && |row.key| > 0;
    assert HotkeyLine(row) == Strip(row.action) + " = " + Strip(row.key) + CRLF;
    PaddedAction(sa);
    PaddedKey(sk);
  }

  /** An assignment row reads back as its stripped cells padded by one space. */
  lemma AssignmentRowBack(row: HotkeyRow)
    requires WellFormed(row) && row.action != "" && row.key != ""
    ensures Reloaded(row) == HotkeyRow(Strip(row.action) + " ", " " + Strip(row.key))
  {
    AssignmentRowLine(row);
    AssignmentLineParse(Strip(row.action), Strip(row.key));
  }

  lemma AssignmentRowRewritten(row: HotkeyRow)
    requires WellFormed(row) && row.action != "" && row.key != ""
    ensures HotkeyLine(Reloaded(row)) == HotkeyLine(row)
  {
    AssignmentRowBack(row);
    AssignmentRowLine(row);
    AssignmentLineOf(Strip(row.action), Strip(row.key));
  }

  lemma AssignmentRowSame(row: HotkeyRow)
    requires WellFormed(row) && row.action != "" && row.key != ""
    ensures SameStripped(Reloaded(row), row)
  {
    AssignmentRowBack(row);
    AssignmentRowLine(row);
    PaddedAction(Strip(row.action));
    PaddedKey(Strip(row.key));
  }

  // ---- actions with an empty key that are not headers

  /** A non-empty normalised action followed by ` =` is still normalised. */
  lemma NormalisedEquals(sa: string)
    requires Normalised(sa) && sa != []
    ensures Normalised(sa + " =")
  {
    NormalisedJoin(sa, " ", "=");
    assert sa + " " + "=" == sa + " =";
  }

  /** `a = ` + CRLF regrouped as `a =` and ` ` + CRLF. */
  lemma EmptyKeyRegroup(sa: string)
    ensures sa + " = " + CRLF == (sa + " =") + (" " + CRLF)
  {
    var m := sa + " = " + CRLF;
    assert m[..|sa| + 2] == sa + " =";
    assert m[|sa| + 2..] == " " + CRLF;
  }

  /** The written line of an action with an empty key (not a header), and its stripped action. */
  lemma EmptyKeyRowLine(row: HotkeyRow)
    requires WellFormed(row) && row.action != "" && row.key == "" && '[' !in row.action
    ensures var sa := Strip(row.action);
      sa != [] && Normalised(sa + " =") && '=' !in sa && '[' !in sa && NoEdgeSpace(sa) &&
      HotkeyLine(row) == (sa + " =") + (" " + CRLF)
  {
    StrippedCell(row.action);
    StripNoNewChars(row.action);
    var sa := Strip(row.action);
    NormalisedEquals(sa);
    EmptyKeyLine(row.action);
    EmptyKeyRegroup(sa);
  }

  /** `a =` read back is the action `a ` with an empty key. */
  lemma EmptyKeyLineParse(sa: string)
    requires sa != [] && Normalised(sa + " =") && '=' !in sa
    ensures ParseRow(Replacer((sa + " =") + (" " + CRLF))) == HotkeyRow(sa + " ", "")
  {
    ReplacerPadded(sa + " =", " " + CRLF);
    assert sa + " =" == (sa + " ") + "=" + "";
    AppendSpace(sa, '=');
    ParseRowOf(sa + " ", "");
  }

  /** A non-empty action that is not a header, with an empty key, is written as `action = ` + CRLF. */
  lemma EmptyKeyLine(action: string)
    requires action != "" && '[' !in action
    ensures HotkeyLine(HotkeyRow(action, "")) == Strip(action) + " = " + CRLF
  {
  }

  /** The row read back for `a ` with an empty key is written as `a = ` + CRLF. */
  lemma EmptyKeyLineOf(sa: string)
    requires NoEdgeSpace(sa) && sa != [] && '[' !in sa
    ensures HotkeyLine(HotkeyRow(sa + " ", "")) == (sa + " =") + (" " + CRLF)
  {
    AppendSpace(sa, '[');
    EmptyKeyLine(sa + " ");
    PaddedAction(sa);
    EmptyKeyRegroup(sa);
  }

  /** An action with an empty key reads back as its stripped action plus a space, with an empty key. */
  lemma EmptyKeyRowBack(row: HotkeyRow)
    requires WellFormed(row) && row.action != "" && row.key == "" && '[' !in row.action
    ensures Reloaded(row) == HotkeyRow(Strip(row.action) + " ", "")
  {
    EmptyKeyRowLine(row);
    EmptyKeyLineParse(Strip(row.action));
  }

  lemma EmptyKeyRowRewritten(row: HotkeyRow)
    requires WellFormed(row) && row.action != "" && row.key == "" && '[' !in row.action
    ensures HotkeyLine(Reloaded(row)) == HotkeyLine(row)
  {
    EmptyKeyRowBack(row);
    EmptyKeyRowLine(row);
    EmptyKeyLineOf(Strip(row.action));
  }

  lemma EmptyKeyRowSame(row: HotkeyRow)
    requires WellFormed(row) && row.action != "" && row.key == "" && '[' !in row.action
    ensures SameStripped(Reloaded(row), row)
  {
    EmptyKeyRowBack(row);
    EmptyKeyRowLine(row);
    PaddedAction(Strip(row.action));
  }

  // ---- blank rows

  lemma BlankRowReload(row: HotkeyRow)
    requires row.action == ""
    ensures HotkeyLine(Reloaded(row)) == HotkeyLine(row)
  {
    StripEmpty("\n");
  }

  /**
   * Writing a well-formed row and reading it back gives a row that is written the same
   * way; when the action is not empty, both cells come back equal up to surrounding whitespace.
   */
  lemma RowReloadStable(row: HotkeyRow)
    requires WellFormed(row)
    ensures HotkeyLine(Reloaded(row)) == HotkeyLine(row)
    ensures row.action != "" ==> SameStripped(Reloaded(row), row)
  {
    if '[' in row.action && row.key == "" {
      HeaderRowRewritten(row);
      HeaderRowSame(row);
    } else if row.action != "" && row.key != "" {
      AssignmentRowRewritten(row);
      AssignmentRowSame(row);
    } else if row.action != "" {
      EmptyKeyRowRewritten(row);
      EmptyKeyRowSame(row);
    } else {
      BlankRowReload(row);
    }
  }

  /** Each settings row is written as one line, in row order. */
  lemma HotkeyTextLines(rows: seq<HotkeyRow>)
    requires forall i :: 0 <= i < |rows| ==> '\n' !in rows[i].action && '\n' !in rows[i].key
    ensures Lines(HotkeyText(rows)) == HotkeyLines(rows)
  {
    forall i | 0 <= i < |rows| ensures IsLine(HotkeyLines(rows)[i]) {
      HotkeyLineIsLine(rows[i]);
    }
    LinesOfConcat(HotkeyLines(rows));
  }

  /**
   * Without the whitespace-only exclusion of `WellFormed` a save is not stable:
   * the row `(" ", "")` is written as `" = "` and CRLF, reads back as `("", "")`,
   * and that row is written as a bare '\n'.
   */
  lemma WhitespaceCellUnstable()
    ensures HotkeyLine(HotkeyRow(" ", "")) == " = " + CRLF
    ensures Reloaded(HotkeyRow(" ", "")) == HotkeyRow("", "")
    ensures HotkeyLine(Reloaded(HotkeyRow(" ", ""))) == "\n"
  {
    WhitespaceCellLine();
    WhitespaceCellReplaced();
    LoneEqualsParse();
    assert Reloaded(HotkeyRow(" ", "")) == ParseRow(Replacer(" = " + CRLF));
  }

  lemma WhitespaceCellLine()
    ensures HotkeyLine(HotkeyRow(" ", "")) == " = " + CRLF
  {
    StripEmpty(" ");
  }

  /** A lone '=' splits into two empty cells. */
  lemma LoneEqualsParse()
    ensures ParseRow("=") == HotkeyRow("", "")
  {
    var r := ParseRow("=");
    assert |r.action| + 1 + |r.key| == 1;
  }

  /** The line written for `(" ", "")` normalises to a lone '='. */
  lemma WhitespaceCellReplaced()
    ensures Replacer(" = " + CRLF) == "="
  {
    StripPadded(" ", "=", " " + CRLF);
    assert " " + "=" + (" " + CRLF) == " = " + CRLF;
    assert '\t' !in "=";
  }

  /** Saving well-formed rows, reloading the file and saving again writes the same text. */
  lemma SaveReloadStable(rows: seq<HotkeyRow>)
    requires forall i :: 0 <= i < |rows| ==> WellFormed(rows[i])
    ensures HotkeyText(Settings(HotkeyText(rows))) == HotkeyText(rows)
  {
    HotkeyTextLines(rows);
    var back := Settings(HotkeyText(rows));
    forall i | 0 <= i < |rows| ensures HotkeyLine(back[i]) == HotkeyLine(rows[i]) {
      RowReloadStable(rows[i]);
    }
    assert HotkeyLines(back) == HotkeyLines(rows);
  }

  /** Once a hotkey file has been loaded and saved, saving it again after a reload changes nothing. */
  lemma SaveIsIdempotent(text: string)
    ensures HotkeyText(Settings(HotkeyText(Settings(text)))) == HotkeyText(Settings(text))
  {
    SettingsWellFormed(text);
    SaveReloadStable(Settings(text));
  }

  // ------------------------------------------------------- script-file slots

  /** A script line for slot `e` starts with the lookup prefix for slot `d` exactly when `d` is `e`. */
  lemma SlotMatch(d: string, e: string, rest: string)
    requires AllDigits(d) && AllDigits(e)
    ensures StartsWith(ScriptPrefix + e + " = " + rest, ScriptPrefix + d + " ") <==> d == e
  {
    var line := ScriptPrefix + e + " = " + rest;
    var p := ScriptPrefix + d + " ";
    if d == e {
      assert line[..|p|] == p;
    }
    if StartsWith(line, p) {
      assert line[6 + |d|] == ' ';
      assert forall k :: 0 <= k < |e| ==> line[6 + k] == e[k];
      assert line[6 + |e|] == ' ';
      assert forall k :: 0 <= k < |d| ==> line[6 + k] == d[k];
    }
  }

  /** The path of a script line for a numbered slot is everything after its " = ". */
  lemma SlotPath(d: string, rest: string)
    requires AllDigits(d)
    ensures PathOf(ScriptPrefix + d + " = " + rest) == rest
  {
    var x := ScriptPrefix + d;
    var line := x + " = " + rest;
    forall j | 0 <= j < |x| ensures !OccursAt(line, " = ", j) {
      assert line[j] == x[j];
      assert line[j..j + 3][0] == line[j];
    }
    PartitionOf(line, x, " = ", rest);
  }

  /** Looking up slot `d` finds the path of the first line for that slot. */
  lemma SlotFound(lines: seq<string>, j: int, d: string, rest: string)
    requires 0 <= j < |lines| && AllDigits(d) && lines[j] == ScriptPrefix + d + " = " + rest
    requires forall i :: 0 <= i < j ==> !StartsWith(lines[i], ScriptPrefix + d + " ")
    ensures FindPath(lines, d + " ") == Some(rest)
  {
    SlotMatch(d, d, rest);
    assert ScriptPrefix + (d + " ") == ScriptPrefix + d + " ";
    assert IsFirstMatch(lines, ScriptPrefix + (d + " "), j);
    FindPathFirst(lines, d + " ", j);
    SlotPath(d, rest);
  }

  /** Line `n` of a fresh ActionScript file is the line for slot `n`. */
  lemma SeedLineAt(n: nat)
    requires 1 <= n <= SlotCount
    ensures |SeedLines()| == SlotCount + 1
    ensures SeedLines()[n] == ScriptPrefix + DecimalString(n) + " = " + CRLF
  {
    var slots := seq(SlotCount, i requires 0 <= i < SlotCount => SlotLine(i + 1));
    assert SeedLines() == [ScriptFilesHeader + CRLF] + slots;
    assert SeedLines()[n] == slots[n - 1];
  }

  /** Every line of a fresh ActionScript file ends with its only newline. */
  lemma SeedLinesAreLines()
    ensures forall i :: 0 <= i < |SeedLines()| ==> IsLine(SeedLines()[i])
  {
    forall i | 0 <= i < |SeedLines()| ensures IsLine(SeedLines()[i]) {
      if i == 0 {
        CRLFLine(ScriptFilesHeader);
      } else {
        SeedLineAt(i);
        var d := DecimalString(i);
        assert forall k :: 0 <= k < |d| ==> d[k] != '\n';
        CRLFLine(ScriptPrefix + d + " = ");
      }
    }
  }

  /** `createActionScriptFile` writes 13 lines: the header, then `Script1 = ` to `Script12 = `, each ended by CRLF. */
  lemma SeedShape()
    ensures Lines(SeedText()) == SeedLines()
    ensures |SeedLines()| == SlotCount + 1 && SeedLines()[0] == ScriptFilesHeader + CRLF
    ensures forall n :: 1 <= n <= SlotCount ==> SeedLines()[n] == ScriptPrefix + DecimalString(n) + " = " + CRLF
  {
    SeedLinesAreLines();
    LinesOfConcat(SeedLines());
    forall n | 1 <= n <= SlotCount
      ensures SeedLines()[n] == ScriptPrefix + DecimalString(n) + " = " + CRLF
    {
      SeedLineAt(n);
    }
  }

  /** In a freshly created ActionScript file, every slot 1..12 is found, with an empty path. */
  lemma SeedLookup(n: nat)
    requires 1 <= n <= SlotCount
    ensures FindPath(Lines(SeedText()), DecimalString(n) + " ") == Some(CRLF)
  {
    var lines := SeedLines();
    var d := DecimalString(n);
    forall i | 0 <= i < n ensures !StartsWith(lines[i], ScriptPrefix + d + " ") {
      SeedNotEarlier(i, n);
    }
    SeedLineAt(n);
    SlotFound(lines, n, d, CRLF);
    SeedShape();
  }

  /** Line `i` of a fresh ActionScript file does not name slot `n` when `i < n`. */
  lemma SeedNotEarlier(i: nat, n: nat)
    requires i < n <= SlotCount
    ensures |SeedLines()| == SlotCount + 1
    ensures !StartsWith(SeedLines()[i], ScriptPrefix + DecimalString(n) + " ")
  {
    var d := DecimalString(n);
    SeedLineAt(n);
    if i == 0 {
      assert SeedLines()[0][0] != (ScriptPrefix + d + " ")[0];
    } else {
      SeedLineAt(i);
      DecimalStringInjective(i, n);
      SlotMatch(d, DecimalString(i), CRLF);
    }
  }

  /** A script-table name `Script<digits>`, once stripped. */
  predicate IsSlotName(s: string) {
    |s| >= |ScriptPrefix| && s[..|ScriptPrefix|] == ScriptPrefix && AllDigits(s[|ScriptPrefix|..])
  }

  /** A slot name holds no newline. */
  lemma SlotNameNoNewline(s: string)
    requires IsSlotName(s)
    ensures '\n' !in s
  {
    forall k | 0 <= k < |s| ensures s[k] != '\n' {
      if k < |ScriptPrefix| {
        assert s[k] == s[..|ScriptPrefix|][k];
      } else {
        assert s[k] == s[|ScriptPrefix|..][k - |ScriptPrefix|];
      }
    }
  }

  /** The line written for a script row whose cells hold no newline is exactly one line. */
  lemma ScriptLineIsLine(row: ScriptRow)
    requires '\n' !in Strip(row.name) && '\n' !in RStrip(row.path)
    ensures IsLine(ScriptLine(row))
  {
    var name, path := Strip(row.name), RStrip(row.path);
    ScriptBodyLine(name, path);
    assert ScriptLine(row) == name + " = " + path + " " + CRLF;
  }

  /** A script line built from a newline-free name and path is one line. */
  lemma ScriptBodyLine(name: string, path: string)
    requires '\n' !in name && '\n' !in path
    ensures IsLine(name + " = " + path + " " + CRLF)
  {
    assert '\n' !in name + " = " + path + " ";
    CRLFLine(name + " = " + path + " ");
  }

  /** The ActionScript file `saveSettings` writes reads back as its header plus one line per script row. */
  lemma ScriptTextLines(rows: seq<ScriptRow>)
    requires forall i :: 0 <= i < |rows| ==> '\n' !in Strip(rows[i].name) && '\n' !in RStrip(rows[i].path)
    ensures Lines(ScriptText(rows)) == ScriptFileLines(rows)
  {
    var lines := ScriptFileLines(rows);
    forall k | 0 <= k < |lines| ensures IsLine(lines[k]) {
      if k == 0 {
        SavedHeaderIsLine(rows);
      } else {
        ScriptFileLineIsLine(rows, k);
      }
    }
    LinesOfConcat(lines);
  }

  lemma ScriptFileLineIsLine(rows: seq<ScriptRow>, k: int)
    requires 1 <= k <= |rows|
    requires '\n' !in Strip(rows[k - 1].name) && '\n' !in RStrip(rows[k - 1].path)
    ensures IsLine(ScriptFileLines(rows)[k])
  {
    var row := rows[k - 1];
    assert ScriptFileLines(rows)[k] == ScriptLine(row);
    ScriptLineIsLine(row);
  }

  lemma SavedHeaderIsLine(rows: seq<ScriptRow>)
    ensures IsLine(ScriptFileLines(rows)[0])
  {
    var line := ScriptFileLines(rows)[0];
    assert line == ScriptFilesHeader + "\n";
    assert line[..|line| - 1] == ScriptFilesHeader;
  }

  /** Line `k` (from 1) of the saved ActionScript file is the line for script row `k - 1`. */
  lemma ScriptFileLineAt(rows: seq<ScriptRow>, k: int)
    requires 1 <= k <= |rows|
    ensures |ScriptFileLines(rows)| == |rows| + 1
    ensures ScriptFileLines(rows)[k] == Strip(rows[k - 1].name) + " = " + (RStrip(rows[k - 1].path) + " " + CRLF)
  {
  }

  /** The lines written for the first `n` settings rows are the first `n` lines written for all of them. */
  lemma HotkeyLinesPrefix(rows: seq<HotkeyRow>, n: int)
    requires 0 <= n <= |rows|
    ensures HotkeyLines(rows[..n]) == HotkeyLines(rows)[..n]
  {
  }

  /** Writing settings row `x` after the first `x` rows extends the hotkey text by that row's line. */
  lemma HotkeyTextNext(rows: seq<HotkeyRow>, x: int)
    requires 0 <= x < |rows|
    ensures HotkeyText(rows[..x + 1]) == HotkeyText(rows[..x]) + HotkeyLine(rows[x])
  {
    HotkeyLinesPrefix(rows, x);
    HotkeyLinesPrefix(rows, x + 1);
    ConcatNext(HotkeyLines(rows), x);
  }

  /** The lines written for the first `n` script rows are the first `n + 1` lines written for all of them. */
  lemma ScriptFileLinesPrefix(rows: seq<ScriptRow>, n: int)
    requires 0 <= n <= |rows|
    ensures ScriptFileLines(rows[..n]) == ScriptFileLines(rows)[..n + 1]
  {
  }

  /** Writing script row `y` after the first `y` rows extends the ActionScript text by that row's line. */
  lemma ScriptTextNext(rows: seq<ScriptRow>, y: int)
    requires 0 <= y < |rows|
    ensures ScriptText(rows[..y + 1]) == ScriptText(rows[..y]) + ScriptLine(rows[y])
  {
    ScriptFileLinesPrefix(rows, y);
    ScriptFileLinesPrefix(rows, y + 1);
    SavedScriptNext(rows, y);
  }

  /** With no script rows, the ActionScript text is the header line alone. */
  lemma ScriptTextEmpty()
    ensures ScriptText([]) == ScriptFilesHeader + "\n"
  {
    assert ScriptFileLines([]) == [ScriptFilesHeader + "\n"];
  }

  /** Writing script row `y` extends the saved ActionScript text by that row's line. */
  lemma SavedScriptNext(rows: seq<ScriptRow>, y: int)
    requires 0 <= y < |rows|
    ensures |ScriptFileLines(rows)| == |rows| + 1
    ensures Concat(ScriptFileLines(rows)[..y + 2]) == Concat(ScriptFileLines(rows)[..y + 1]) + ScriptLine(rows[y])
  {
    ScriptFileLineAt(rows, y + 1);
    ConcatNext(ScriptFileLines(rows), y + 1);
  }

  /** Every line after the header of the saved ActionScript file is the line of its script row. */
  lemma ScriptFileLinesShape(rows: seq<ScriptRow>)
    ensures |ScriptFileLines(rows)| == |rows| + 1
    ensures forall k :: 1 <= k <= |rows| ==>
      ScriptFileLines(rows)[k] == Strip(rows[k - 1].name) + " = " + (RStrip(rows[k - 1].path) + " " + CRLF)
  {
    forall k | 1 <= k <= |rows|
      ensures ScriptFileLines(rows)[k] == Strip(rows[k - 1].name) + " = " + (RStrip(rows[k - 1].path) + " " + CRLF)
    {
      ScriptFileLineAt(rows, k);
    }
  }

  /** Saved line `k`, written for a row whose slot differs from `d`, is not found when looking up `d`. */
  lemma SavedNotEarlier(rows: seq<ScriptRow>, k: int, d: string)
    requires 1 <= k <= |rows| && AllDigits(d) && IsSlotName(Strip(rows[k - 1].name))
    requires Strip(rows[k - 1].name) != ScriptPrefix + d
    ensures !StartsWith(ScriptFileLines(rows)[k], ScriptPrefix + d + " ")
  {
    var name := Strip(rows[k - 1].name);
    var e := name[|ScriptPrefix|..];
    assert name == ScriptPrefix + e;
    var rest := RStrip(rows[k - 1].path) + " " + CRLF;
    ScriptFileLinesShape(rows);
    var line := ScriptFileLines(rows)[k];
    assert line == ScriptPrefix + e + " = " + rest;
    SlotMatch(d, e, rest);
  }

  /** The header line of the saved ActionScript file names no slot. */
  lemma SavedHeaderNoSlot(rows: seq<ScriptRow>, d: string)
    ensures !StartsWith(ScriptFileLines(rows)[0], ScriptPrefix + d + " ")
  {
    var head := ScriptFileLines(rows)[0];
    assert head == ScriptFilesHeader + "\n";
    assert head[0] == '[';
  }

  /** No saved line before the line of script row `j` names the slot of row `j`. */
  lemma SavedNoEarlierSlot(rows: seq<ScriptRow>, j: int, d: string)
    requires 0 <= j < |rows| && AllDigits(d) && Strip(rows[j].name) == ScriptPrefix + d
    requires forall i :: 0 <= i < j ==> IsSlotName(Strip(rows[i].name))
    requires forall i :: 0 <= i < j ==> Strip(rows[i].name) != Strip(rows[j].name)
    ensures |ScriptFileLines(rows)| == |rows| + 1
    ensures forall i :: 0 <= i < j + 1 ==> !StartsWith(ScriptFileLines(rows)[i], ScriptPrefix + d + " ")
  {
    assert |ScriptFileLines(rows)| == |rows| + 1;
    forall i | 0 <= i < j + 1 ensures !StartsWith(ScriptFileLines(rows)[i], ScriptPrefix + d + " ") {
      if i == 0 {
        SavedHeaderNoSlot(rows, d);
      } else {
        SavedNotEarlier(rows, i, d);
      }
    }
  }

  /** The saved line of script row `j`, named for slot `d`, is `Script<d> = ` followed by its path. */
  lemma SavedSlotLine(rows: seq<ScriptRow>, j: int, d: string)
    requires 0 <= j < |rows| && Strip(rows[j].name) == ScriptPrefix + d
    ensures |ScriptFileLines(rows)| == |rows| + 1
    ensures ScriptFileLines(rows)[j + 1] == ScriptPrefix + d + " = " + (RStrip(rows[j].path) + " " + CRLF)
  {
    ScriptFileLineAt(rows, j + 1);
  }

  /** Looking up the slot of script row `j` in the saved lines finds that row's saved path. */
  lemma SavedSlotFound(rows: seq<ScriptRow>, j: int, d: string)
    requires 0 <= j < |rows| && AllDigits(d) && Strip(rows[j].name) == ScriptPrefix + d
    requires forall i :: 0 <= i < j ==> IsSlotName(Strip(rows[i].name))
    requires forall i :: 0 <= i < j ==> Strip(rows[i].name) != Strip(rows[j].name)
    ensures FindPath(ScriptFileLines(rows), d + " ") == Some(RStrip(rows[j].path) + " " + CRLF)
  {
    SavedNoEarlierSlot(rows, j, d);
    SavedSlotLine(rows, j, d);
    SlotFound(ScriptFileLines(rows), j + 1, d, RStrip(rows[j].path) + " " + CRLF);
  }

  /**
   * After `saveSettings`, looking up the slot of script row `j` in the file finds the path that
   * row held (right-stripped, followed by " " and CRLF), unless an earlier row names the same slot.
   */
  lemma SavedPathFound(rows: seq<ScriptRow>, j: int, d: string)
    requires 0 <= j < |rows| && AllDigits(d) && Strip(rows[j].name) == ScriptPrefix + d
    requires forall i :: 0 <= i < j ==> IsSlotName(Strip(rows[i].name))
    requires forall i :: 0 <= i < j ==> Strip(rows[i].name) != Strip(rows[j].name)
    requires forall i :: 0 <= i < |rows| ==> '\n' !in Strip(rows[i].name) && '\n' !in RStrip(rows[i].path)
    ensures FindPath(Lines(ScriptText(rows)), d + " ") == Some(RStrip(rows[j].path) + " " + CRLF)
  {
    SavedSlotFound(rows, j, d);
    ScriptTextLines(rows);
  }

  /** Right-stripping a saved path gives back the row's path, right-stripped. */
  lemma SavedPathStripped(path: string)
    ensures RStrip(RStrip(path) + " " + CRLF) == RStrip(path)
  {
    RStripPadded(RStrip(path), " " + CRLF);
    assert RStrip(path) + " " + CRLF == RStrip(path) + (" " + CRLF);
  }
}
