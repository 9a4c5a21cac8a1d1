/** tools/build_licenses.py: the licence text assembled from three
    tab-separated tables. Each table's first line is a header and is
    skipped; every other line is stripped, kept only when it starts with
    `Y`, split on tabs and printed as a name line, an origin line and a
    licence line, followed by a blank line. A row with the wrong number of
    fields raises, which ends the script with what was printed so far.
    Files are given as the lists of lines `readlines` returns, and the
    output as the list of lines `print` writes. */
module BuildLicenses {
  import opened Base

  // ---------------------------------------------------------------------
  // `str.strip()`.

  /** The characters Python's `str.isspace` accepts. */
  predicate IsSpace(c: char)
  {
    || c == ' ' || c == '\t' || c == '\n' || c == '\r' || c == '\U{b}' || c == '\U{c}'
    || ('\U{1c}' <= c <= '\U{1f}') || c == '\U{85}' || c == '\U{a0}' || c == '\U{1680}'
    || ('\U{2000}' <= c <= '\U{200a}') || c == '\U{2028}' || c == '\U{2029}'
    || c == '\U{202f}' || c == '\U{205f}' || c == '\U{3000}'
  }

  /** `s` without its leading white space. */
  function StripStart(s: string): (r: string)
    ensures |r| <= |s| && r == s[|s| - |r|..]
    ensures forall i :: 0 <= i < |s| - |r| ==> IsSpace(s[i])
    ensures r != [] ==> !IsSpace(r[0])
  {
    if s != [] && IsSpace(s[0]) then StripStart(s[1..]) else s
  }

  /** `s` without its trailing white space. */
  function StripEnd(s: string): (r: string)
    ensures |r| <= |s| && r == s[..|r|]
    ensures forall i :: |r| <= i < |s| ==> IsSpace(s[i])
    ensures r != [] ==> !IsSpace(r[|r| - 1])
  {
    if s != [] && IsSpace(s[|s| - 1]) then StripEnd(s[..|s| - 1]) else s
  }

  /** `s.strip()`: the part of `s` between its leading and trailing white
      space; empty exactly when `s` is all white space. */
  function Strip(s: string): (r: string)
    ensures var a := |s| - |StripStart(s)|;
      && a + |r| <= |s| && r == s[a..a + |r|]
      && (forall i :: 0 <= i < a ==> IsSpace(s[i]))
      && (forall i :: a + |r| <= i < |s| ==> IsSpace(s[i]))
    ensures r != [] ==> !IsSpace(r[0]) && !IsSpace(r[|r| - 1])
    ensures r == [] <==> forall i :: 0 <= i < |s| ==> IsSpace(s[i])
  {
    var t := StripStart(s);
    var r := StripEnd(t);
    StripOfParts(s, t, r);
    r
  }

  /** A line cut into its leading white space, a middle `r` and its
      trailing white space: `t` is the line without the leading part and
      `r` is `t` without the trailing part, as `StripStart` and `StripEnd`
      promise. The middle is a slice of the line, and it is empty exactly
      when the line is all white space. */
  lemma StripOfParts(s: string, t: string, r: string)
    requires |t| <= |s| && t == s[|s| - |t|..]
    requires forall i :: 0 <= i < |s| - |t| ==> IsSpace(s[i])
    requires t != [] ==> !IsSpace(t[0])
    requires |r| <= |t| && r == t[..|r|]
    requires forall i :: |r| <= i < |t| ==> IsSpace(t[i])
    requires r != [] ==> !IsSpace(r[|r| - 1])
    ensures var a := |s| - |t|;
      && a + |r| <= |s| && r == s[a..a + |r|]
      && (forall i :: a + |r| <= i < |s| ==> IsSpace(s[i]))
    ensures r != [] ==> !IsSpace(r[0])
    ensures r == [] <==> forall i :: 0 <= i < |s| ==> IsSpace(s[i])
  {
    var a := |s| - |t|;
    forall i | a + |r| <= i < |s|
      ensures IsSpace(s[i])
    {
      assert s[i] == t[i - a];
    }
    if r != [] {
      assert r[0] == t[0] == s[a];
    }
  }

  /** Stripping a stripped line changes nothing. */
  lemma StripIdempotent(s: string)
    ensures Strip(Strip(s)) == Strip(s)
  {
    var r := Strip(s);
    if r != [] {
      assert StripStart(r) == r;
      assert StripEnd(r) == r;
    }
  }

  // ---------------------------------------------------------------------
  // `str.split("\t")`.

  /** The fields of `s` between the separators: one more field than there
      are separators, none of them holding a separator. */
  function Split(s: string, sep: char): (fields: seq<string>)
    ensures |fields| >= 1
    ensures forall i :: 0 <= i < |fields| ==> sep !in fields[i]
    ensures Join(fields, sep) == s
  {
    if s == [] then [[]]
    else
      var rest := Split(s[1..], sep);
      if s[0] == sep then
        assert ([[]] + rest)[1..] == rest;
        [[]] + rest
      else
        var fields := [[s[0]] + rest[0]] + rest[1..];
        assert fields[1..] == rest[1..];
        JoinCons(rest, s[0], sep);
        fields
  }

  /** The fields written back with the separator between them. */
  function Join(fields: seq<string>, sep: char): string
    requires |fields| >= 1
  {
    if |fields| == 1 then fields[0] else fields[0] + [sep] + Join(fields[1..], sep)
  }

  lemma JoinCons(fields: seq<string>, c: char, sep: char)
    requires |fields| >= 1
    ensures var fields' := [[c] + fields[0]] + fields[1..];
      Join(fields', sep) == [c] + Join(fields, sep)
  {
    var fields' := [[c] + fields[0]] + fields[1..];
    if |fields| > 1 {
      assert fields'[1..] == fields[1..];
    }
  }

  /** A field without separators is split off whole from whatever follows. */
  lemma {:induction false} SplitPrefix(f: string, rest: string, sep: char)
    requires sep !in f
    ensures Split(f + rest, sep) == [f + Split(rest, sep)[0]] + Split(rest, sep)[1..]
  {
    if f != [] {
      SplitPrefix(f[1..], rest, sep);
      assert (f + rest)[1..] == f[1..] + rest;
      assert [f[0]] + (f[1..] + Split(rest, sep)[0]) == f + Split(rest, sep)[0];
    } else {
      var fields := Split(rest, sep);
      assert f + rest == rest && f + fields[0] == fields[0];
      assert fields == [fields[0]] + fields[1..];
    }
  }

  /** Splitting the joined fields gives the fields back. */
  lemma {:induction false} SplitJoin(fields: seq<string>, sep: char)
    requires |fields| >= 1 && forall i :: 0 <= i < |fields| ==> sep !in fields[i]
    ensures Split(Join(fields, sep), sep) == fields
  {
    if |fields| == 1 {
      SplitPrefix(fields[0], [], sep);
      assert fields[0] + [] == fields[0];
    } else {
      var tail := Join(fields[1..], sep);
      assert Join(fields, sep) == fields[0] + ([sep] + tail);
      assert Split([sep] + tail, sep) == [[]] + fields[1..] by {
        SplitJoin(fields[1..], sep);
        assert ([sep] + tail)[1..] == tail;
      }
      SplitPrefix(fields[0], [sep] + tail, sep);
      assert fields[0] + [] == fields[0];
      assert ([[]] + fields[1..])[1..] == fields[1..];
      assert fields == [fields[0]] + fields[1..];
    }
  }

  // ---------------------------------------------------------------------
  // The three row formatters. Each unpacks the tab-separated fields into a
  // fixed number of names; any other number of fields raises (`None`).

  /** `print_code_license`: used, name, origin, licence. */
  function CodeLicense(line: string): (r: Option<seq<string>>)
    ensures r.Some? <==> |Split(line, '\t')| == 4
    ensures r.Some? ==> |r.value| == 3
  {
    var f := Split(line, '\t');
    if |f| != 4 then None
    else Some([f[1], "Origin: " + f[2] + " ", "License: " + f[3]])
  }

  /** `print_content_license`: used, path, asset, origin, licence, original
      file name. */
  function ContentLicense(line: string): (r: Option<seq<string>>)
    ensures r.Some? <==> |Split(line, '\t')| == 6
    ensures r.Some? ==> |r.value| == 3
  {
    var f := Split(line, '\t');
    if |f| != 6 then None
    else Some([f[1] + "/" + f[2], "Origin: " + f[3] + " ", "License: " + f[4]])
  }

  /** `print_source_assets_license`: used, path, asset, origin, licence. */
  function SourceAssetLicense(line: string): (r: Option<seq<string>>)
    ensures r.Some? <==> |Split(line, '\t')| == 5
    ensures r.Some? ==> |r.value| == 3
  {
    var f := Split(line, '\t');
    if |f| != 5 then None
    else Some([f[2], "Origin: " + f[3] + " ", "License: " + f[4]])
  }

  predicate TabFree(fields: seq<string>)
  {
    forall i :: 0 <= i < |fields| ==> '\t' !in fields[i]
  }

  /** A code row made of four tab-free fields prints its name, its origin
      with a trailing space and its licence. */
  lemma CodeLicenseOfRow(used: string, name: string, origin: string, license: string)
    requires TabFree([used, name, origin, license])
    ensures CodeLicense(Join([used, name, origin, license], '\t'))
         == Some([name, "Origin: " + origin + " ", "License: " + license])
  {
    SplitJoin([used, name, origin, license], '\t');
  }

  /** A content row prints `path/asset`, its origin and its licence; the
      original file name is dropped. */
  lemma ContentLicenseOfRow(used: string, path: string, asset: string, origin: string, license: string, original: string)
    requires TabFree([used, path, asset, origin, license, original])
    ensures ContentLicense(Join([used, path, asset, origin, license, original], '\t'))
         == Some([path + "/" + asset, "Origin: " + origin + " ", "License: " + license])
  {
    SplitJoin([used, path, asset, origin, license, original], '\t');
  }

  /** A source-asset row prints the asset name alone, its origin and its
      licence; the path is dropped. */
  lemma SourceAssetLicenseOfRow(used: string, path: string, asset: string, origin: string, license: string)
    requires TabFree([used, path, asset, origin, license])
    ensures SourceAssetLicense(Join([used, path, asset, origin, license], '\t'))
         == Some([asset, "Origin: " + origin + " ", "License: " + license])
  {
    SplitJoin([used, path, asset, origin, license], '\t');
  }

  /** A row with too few or too many fields raises. */
  lemma CodeLicenseRejects(fields: seq<string>)
    requires |fields| >= 1 && |fields| != 4 && TabFree(fields)
    ensures CodeLicense(Join(fields, '\t')).None?
  {
    SplitJoin(fields, '\t');
  }

  // ---------------------------------------------------------------------
  // `print_file`.

  /** Which formatter `print_file` is given. */
  datatype Format = Code | Content | SourceAsset

  /** The number of tab-separated fields the formatter unpacks. */
  function FieldCount(format: Format): nat
  {
    match format
    case Code => 4
    case Content => 6
    case SourceAsset => 5
  }

  /** The `print_*_license` function `print_file` was given, on one row: it
      prints three lines exactly when the row has that formatter's number of
      fields, and raises otherwise. */
  function FormatRow(format: Format, line: string): (r: Option<seq<string>>)
    ensures r.Some? <==> |Split(line, '\t')| == FieldCount(format)
    ensures r.Some? ==> |r.value| == 3
  {
    match format
    case Code => CodeLicense(line)
    case Content => ContentLicense(line)
    case SourceAsset => SourceAssetLicense(line)
  }

  /** A stripped line `print_file` hands to the formatter. */
  predicate Accepted(line: string)
  {
    var s := Strip(line);
    |s| > 0 && s[0] == 'Y'
  }

  /** The lines printed so far, and whether the script is still running. */
  datatype Outcome = Outcome(lines: seq<string>, ok: bool)

  /** The output of the rows after the header, one row at a time; once a
      row raises nothing more is printed. */
  function RowsOutput(rows: seq<string>, format: Format): Outcome
  {
    if rows == [] then Outcome([], true)
    else RowStep(RowsOutput(rows[..|rows| - 1], format), rows[|rows| - 1], format)
  }

  /** One turn of the loop of `print_file` after the header. */
  function RowStep(prev: Outcome, line: string, format: Format): Outcome
  {
    if !prev.ok || !Accepted(line) then prev
    else match FormatRow(format, Strip(line))
      case None => Outcome(prev.lines, false)
      case Some(printed) => Outcome(prev.lines + printed + [""], true)
  }

  /** Every line but the first. */
  function Rows(lines: seq<string>): seq<string>
  {
    if lines == [] then [] else lines[1..]
  }

  lemma RowsSnoc(lines: seq<string>, i: int)
    requires 0 < i < |lines|
    ensures Rows(lines[..i + 1]) == Rows(lines[..i]) + [lines[i]]
  {
    assert lines[..i + 1][1..] == lines[..i][1..] + [lines[i]];
  }

  function FileOutput(lines: seq<string>, format: Format): Outcome
  {
    RowsOutput(Rows(lines), format)
  }

  /** One row of `print_file`'s loop: strip it, skip it unless it starts with `Y`, print it. */
  method PrintRow(prev: Outcome, raw: string, format: Format) returns (next: Outcome)
    requires prev.ok
    ensures next == RowStep(prev, raw, format)
  {
    next := prev;
    var line := Strip(raw);
    if |line| == 0 || line[0] != 'Y' {
      return;
    }
    var printed := FormatRow(format, line);
    if printed.None? {
      next := Outcome(prev.lines, false);
      return;
    }
    next := Outcome(prev.lines + printed.value + [""], true);
  }

  /** `print_file` over the lines of one table. */
  method PrintFile(lines: seq<string>, format: Format) returns (out: Outcome)
    ensures out == FileOutput(lines, format)
  {
    out := Outcome([], true);
    var skippedHeader := false;
    for i := 0 to |lines|
      invariant skippedHeader <==> i > 0
      invariant out.ok && out == RowsOutput(Rows(lines[..i]), format)
    {
      if !skippedHeader {
        skippedHeader := true;
        continue;
      }
      RowsSnoc(lines, i);
      out := PrintRow(out, lines[i], format);
      if !out.ok {
        RowsStop(lines, i, format);
        return;
      }
    }
    assert lines[..|lines|] == lines;
  }

  /** Once a row raises, the rest of the table is not read. */
  lemma {:induction false} RowsStop(lines: seq<string>, i: int, format: Format)
    requires 0 < i < |lines|
    requires !RowsOutput(Rows(lines[..i + 1]), format).ok
    ensures RowsOutput(Rows(lines), format) == RowsOutput(Rows(lines[..i + 1]), format)
    decreases |lines| - i
  {
    if i + 1 < |lines| {
      var rows := Rows(lines[..i + 2]);
      assert rows[..|rows| - 1] == Rows(lines[..i + 1]);
      assert RowsOutput(rows, format) == RowStep(RowsOutput(Rows(lines[..i + 1]), format), rows[|rows| - 1], format);
      RowsStop(lines, i + 1, format);
    } else {
      assert lines[..i + 1] == lines;
    }
  }

  /** The number of rows `print_file` formats. */
  function AcceptedCount(rows: seq<string>): nat
  {
    if rows == [] then 0
    else AcceptedCount(rows[..|rows| - 1]) + (if Accepted(rows[|rows| - 1]) then 1 else 0)
  }

  /** Lines made of four-line records, each ending with a blank line. */
  predicate Records(lines: seq<string>)
  {
    && |lines| % 4 == 0
    && forall j :: 0 <= j < |lines| && j % 4 == 3 ==> lines[j] == ""
  }

  /** One row adds one record when it is accepted and formatted, and
      nothing otherwise. */
  lemma RowStepShape(prev: Outcome, line: string, format: Format)
    requires Records(prev.lines)
    ensures var next := RowStep(prev, line, format);
      && Records(next.lines)
      && (next.ok ==> prev.ok && |next.lines| == |prev.lines| + (if Accepted(line) then 4 else 0))
      && |next.lines| <= |prev.lines| + (if Accepted(line) then 4 else 0)
  {
    if prev.ok && Accepted(line) {
      var printed := FormatRow(format, Strip(line));
      if printed.Some? {
        var out := prev.lines + printed.value + [""];
        assert |printed.value| == 3;
        Mod4Step(|prev.lines|, |prev.lines|);
        forall j | 0 <= j < |out| && j % 4 == 3 ensures out[j] == "" {
          if j < |prev.lines| {
            assert out[j] == prev.lines[j];
          } else {
            Mod4Step(|prev.lines|, j);
          }
        }
      }
    }
  }

  /** The output of the rows is made of records; when no row raises there
      is one record per accepted row. */
  lemma {:induction false} RowsOutputShape(rows: seq<string>, format: Format)
    ensures var out := RowsOutput(rows, format);
      && Records(out.lines)
      && (out.ok ==> |out.lines| == 4 * AcceptedCount(rows))
      && |out.lines| <= 4 * AcceptedCount(rows)
  {
    if rows != [] {
      var init := rows[..|rows| - 1];
      RowsOutputShape(init, format);
      RowStepShape(RowsOutput(init, format), rows[|rows| - 1], format);
    }
  }

  /** A record boundary is a multiple of four and the next four lines have
      the remainders 0 to 3. */
  lemma Mod4Step(a: int, j: int)
    requires a >= 0 && a % 4 == 0 && a <= j < a + 4
    ensures (a + 4) % 4 == 0 && j % 4 == j - a
  {
    var q := a / 4;
    assert a == 4 * q;
    assert a + 4 == 4 * (q + 1);
    assert j == 4 * q + (j - a);
  }

  /** Lines that are not accepted leave no trace: the output depends only
      on the accepted rows. */
  lemma {:induction false} RejectedRowsIgnored(rows: seq<string>, format: Format)
    ensures RowsOutput(rows, format) == RowsOutput(AcceptedRows(rows), format)
  {
    if rows != [] {
      var init := rows[..|rows| - 1];
      RejectedRowsIgnored(init, format);
      var line := rows[|rows| - 1];
      var kept := AcceptedRows(rows);
      if Accepted(line) {
        assert kept[..|kept| - 1] == AcceptedRows(init) && kept[|kept| - 1] == line;
      } else {
        assert kept == AcceptedRows(init);
      }
    }
  }

  function AcceptedRows(rows: seq<string>): (kept: seq<string>)
    ensures |kept| == AcceptedCount(rows)
    ensures forall i :: 0 <= i < |kept| ==> Accepted(kept[i])
  {
    if rows == [] then []
    else AcceptedRows(rows[..|rows| - 1]) + (if Accepted(rows[|rows| - 1]) then [rows[|rows| - 1]] else [])
  }

  /** The first line never reaches a formatter, whatever it holds. */
  lemma HeaderIgnored(header: string, header': string, rows: seq<string>, format: Format)
    ensures FileOutput([header] + rows, format) == FileOutput([header'] + rows, format)
  {
    assert Rows([header] + rows) == rows == Rows([header'] + rows);
  }

  // ---------------------------------------------------------------------
  // The script: three sections in a fixed order.

  const CodeHeader: seq<string> := ["---------------", "CODE LICENCES", "---------------"]
  const ContentHeader: seq<string> := ["----------------", "CONTENT LICENCES", "----------------"]
  const SourceAssetHeader: seq<string> := ["---------------------", "SOURCE ASSET LICENCES", "---------------------"]

  /** The section header, then the table; a blank line and the next
      sections follow only while no row has raised. */
  function Section(header: seq<string>, table: Outcome, next: Outcome): Outcome
  {
    if !table.ok then Outcome(header + table.lines, false)
    else Outcome(header + table.lines + next.lines, next.ok)
  }

  /** The text of `licenses.txt` from the lines of the code, content and
      source-asset tables. */
  function Licences(code: seq<string>, content: seq<string>, sourceAssets: seq<string>): (r: Outcome)
    ensures |r.lines| >= 3 && r.lines[..3] == CodeHeader
    ensures r.ok <==>
      FileOutput(code, Code).ok && FileOutput(content, Content).ok && FileOutput(sourceAssets, SourceAsset).ok
    ensures !FileOutput(code, Code).ok ==> r.lines == CodeHeader + FileOutput(code, Code).lines
  {
    var assets := Section(SourceAssetHeader, FileOutput(sourceAssets, SourceAsset), Outcome([], true));
    var rest := Section(ContentHeader, FileOutput(content, Content), Outcome([""] + assets.lines, assets.ok));
    Section(CodeHeader, FileOutput(code, Code), Outcome([""] + rest.lines, rest.ok))
  }

  lemma ThirdPart<T>(x: seq<T>, y: seq<T>, z: seq<T>, i: int)
    requires 0 <= i < |z|
    ensures |x + y + z| == |x| + |y| + |z| && (x + y + z)[|x| + |y| + i] == z[i]
  {
  }

  /** The nesting in which `Licences` builds its lines is the flat concatenation. */
  lemma SectionsFlat(codeLines: seq<string>, contentLines: seq<string>, assetLines: seq<string>)
    ensures CodeHeader + codeLines + ([""] + (ContentHeader + contentLines + ([""] + (SourceAssetHeader + assetLines + []))))
      == CodeHeader + codeLines + [""] + ContentHeader + contentLines + [""] + SourceAssetHeader + assetLines
  {
    assert SourceAssetHeader + assetLines + [] == SourceAssetHeader + assetLines;
  }

  /** The three sections laid out one after another, with a blank line
      before the second and the third: where each title falls. */
  lemma SectionsLayout(codeLines: seq<string>, contentLines: seq<string>, assetLines: seq<string>)
    ensures var out := CodeHeader + codeLines + ([""] + (ContentHeader + contentLines + ([""] + (SourceAssetHeader + assetLines + []))));
      var c, t := |codeLines|, |contentLines|;
      && |out| == 3 + c + 4 + t + 4 + |assetLines|
      && out[1] == "CODE LICENCES"
      && out[3 + c] == "" && out[3 + c + 2] == "CONTENT LICENCES"
      && out[3 + c + 4 + t] == "" && out[3 + c + 4 + t + 2] == "SOURCE ASSET LICENCES"
  {
    var assets := SourceAssetHeader + assetLines + [];
    var rest := ContentHeader + contentLines + ([""] + assets);
    ThirdPart(CodeHeader, codeLines, [""] + rest, 0);
    ThirdPart(CodeHeader, codeLines, [""] + rest, 2);
    ThirdPart(ContentHeader, contentLines, [""] + assets, 0);
    ThirdPart(ContentHeader, contentLines, [""] + assets, 2);
    ThirdPart(CodeHeader, codeLines, [""] + rest, 4 + |contentLines|);
    ThirdPart(CodeHeader, codeLines, [""] + rest, 4 + |contentLines| + 2);
  }

  /** When every row is well formed, the three section titles stand at the
      positions fixed by the number of accepted rows before them, each
      section after the first preceded by a blank line. */
  lemma SectionOrder(code: seq<string>, content: seq<string>, sourceAssets: seq<string>)
    requires Licences(code, content, sourceAssets).ok
    ensures Licences(code, content, sourceAssets).lines
      == CodeHeader + FileOutput(code, Code).lines + [""]
        + ContentHeader + FileOutput(content, Content).lines + [""]
        + SourceAssetHeader + FileOutput(sourceAssets, SourceAsset).lines
    ensures var out := Licences(code, content, sourceAssets).lines;
      var c, t, s := AcceptedCount(Rows(code)), AcceptedCount(Rows(content)), AcceptedCount(Rows(sourceAssets));
      && |out| == 3 + 4 * c + 4 + 4 * t + 4 + 4 * s
      && out[1] == "CODE LICENCES"
      && out[3 + 4 * c] == "" && out[3 + 4 * c + 2] == "CONTENT LICENCES"
      && out[3 + 4 * c + 4 + 4 * t] == "" && out[3 + 4 * c + 4 + 4 * t + 2] == "SOURCE ASSET LICENCES"
  {
    var a, b, c := FileOutput(code, Code), FileOutput(content, Content), FileOutput(sourceAssets, SourceAsset);
    RowsOutputShape(Rows(code), Code);
    RowsOutputShape(Rows(content), Content);
    RowsOutputShape(Rows(sourceAssets), SourceAsset);
    assert Licences(code, content, sourceAssets).lines
      == CodeHeader + a.lines + ([""] + (ContentHeader + b.lines + ([""] + (SourceAssetHeader + c.lines + []))));
    SectionsLayout(a.lines, b.lines, c.lines);
    SectionsFlat(a.lines, b.lines, c.lines);
  }
}
