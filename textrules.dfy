/** The text helpers of the batch layer: reading a season list back from
    its saved text, the axis label of a variable, the site names derived
    from a list of sources, and the settings block written into a cloned
    script. Strings are sequences of characters; Python's `str.split`,
    `str.strip`, `str.replace`, `str.isdigit`, `int` and `str` on
    non-negative integers are written out below. */
module TextRules {
  import opened Common

  // ----- Python string built-ins -----

  /** `s.split(c)`: the pieces between occurrences of c, at least one. */
  function Split(s: string, c: char): (parts: seq<string>)
    ensures |parts| >= 1
  {
    if s == [] then [""]
    else
      var rest := Split(s[1..], c);
      if s[0] == c then [""] + rest else [[s[0]] + rest[0]] + rest[1..]
  }

  /** `s.strip(c)` for one character: drops every c at either end. */
  function Strip(s: string, c: char): string
  {
    StripRight(StripLeft(s, c), c)
  }

  function StripLeft(s: string, c: char): string
  {
    if s != [] && s[0] == c then StripLeft(s[1..], c) else s
  }

  function StripRight(s: string, c: char): string
  {
    if s != [] && s[|s| - 1] == c then StripRight(s[..|s| - 1], c) else s
  }

  /** `s.replace(" ", "")`. */
  function RemoveSpaces(s: string): (r: string)
    ensures ' ' !in r
  {
    if s == [] then ""
    else if s[0] == ' ' then RemoveSpaces(s[1..])
    else [s[0]] + RemoveSpaces(s[1..])
  }

  predicate IsDigit(c: char)
  {
    '0' <= c <= '9'
  }

  /** `s.isdigit()` for ASCII text: non-empty and every character a digit. */
  predicate IsDigits(s: string)
  {
    |s| > 0 && forall i :: 0 <= i < |s| ==> IsDigit(s[i])
  }

  /** `int(s)` for a string of digits. */
  function ParseNat(s: string): nat
    requires forall i :: 0 <= i < |s| ==> IsDigit(s[i])
  {
    if s == [] then 0
    else
      assert IsDigit(s[|s| - 1]);
      ParseNat(s[..|s| - 1]) * 10 + (s[|s| - 1] as int - '0' as int)
  }

  /** `str(n)` for a non-negative integer: its decimal digits. */
  function ShowNat(n: nat): (s: string)
    ensures IsDigits(s)
  {
    if n < 10 then [('0' as int + n) as char]
    else ShowNat(n / 10) + [('0' as int + n % 10) as char]
  }

  /** Reading the digits of n gives n back. */
  lemma {:induction false} ParseShowNat(n: nat)
    ensures ParseNat(ShowNat(n)) == n
    decreases n
  {
    if n >= 10 {
      ParseShowNat(n / 10);
      var s := ShowNat(n);
      assert s[..|s| - 1] == ShowNat(n / 10);
    }
  }

  /** `sep.join(parts)` for a non-empty list. */
  function Join(parts: seq<string>, sep: string): string
    requires |parts| >= 1
  {
    if |parts| == 1 then parts[0] else parts[0] + sep + Join(parts[1..], sep)
  }

  // ----- get_list and the text save_seasons writes -----

  /** One entry of a parsed list: an integer, or text with its quotes
      stripped. */
  datatype Token = Int(n: nat) | Text(s: string)

  /** One comma-separated piece: all digits makes an integer (so "-1" stays
      text), anything else is text with single quotes stripped from its
      ends. */
  function ParseToken(s: string): (t: Token)
    ensures t.Int? <==> IsDigits(s)
  {
    if IsDigits(s) then Int(ParseNat(s)) else Text(Strip(s, '\''))
  }

  /** The text after the brackets are stripped and the spaces removed. */
  function Cleaned(s: string): string
  {
    RemoveSpaces(Strip(Strip(s, '['), ']'))
  }

  /** `get_list` as a value: None for a missing cell, else one token per
      comma-separated piece of the cleaned text. */
  function ListOf(cell: Option<string>): (r: Option<seq<Token>>)
    ensures r.None? <==> cell.None?
    ensures r.Some? ==> |r.value| == |Split(Cleaned(cell.value), ',')|
  {
    match cell
    case None => None
    case Some(s) =>
      var pieces := Split(Cleaned(s), ',');
      Some(seq(|pieces|, i requires 0 <= i < |pieces| => ParseToken(pieces[i])))
  }

  /** `get_list`: the pieces are parsed and appended one by one. */
  method GetList(cell: Option<string>) returns (r: Option<seq<Token>>)
    ensures r == ListOf(cell)
  {
    if cell.None? {
      return None;
    }
    var pieces := Split(Cleaned(cell.value), ',');
    var list: seq<Token> := [];
    for k := 0 to |pieces|
      invariant list == seq(k, i requires 0 <= i < k => ParseToken(pieces[i]))
    {
      list := list + [ParseToken(pieces[k])];
    }
    r := Some(list);
  }

  /** `str(xs)` for a non-empty list of non-negative integers, as
      save_seasons writes a season: "[1, 2, 3]". */
  function ShowList(xs: seq<nat>): string
    requires |xs| >= 1
  {
    "[" + Join(Digits(xs), ", ") + "]"
  }

  function Digits(xs: seq<nat>): (ds: seq<string>)
    ensures |ds| == |xs|
    ensures forall i :: 0 <= i < |xs| ==> ds[i] == ShowNat(xs[i])
  {
    seq(|xs|, i requires 0 <= i < |xs| => ShowNat(xs[i]))
  }

  /** Reading back a saved non-empty season gives the same months, in
      order. */
  lemma GetListRoundTrip(xs: seq<nat>)
    requires |xs| >= 1
    ensures ListOf(Some(ShowList(xs))) == Some(seq(|xs|, i requires 0 <= i < |xs| => Int(xs[i])))
  {
    var ds := Digits(xs);
    var body := Join(ds, ", ");
    JoinDigitsEnds(ds, ", ");
    StripBrackets(body);
    assert ShowList(xs) == "[" + body + "]";
    RemoveSpacesJoin(ds);
    assert Cleaned(ShowList(xs)) == Join(ds, ",");
    forall i | 0 <= i < |ds| ensures ',' !in ds[i] {
      assert IsDigits(ds[i]);
    }
    SplitJoin(ds, ',');
    assert Split(Cleaned(ShowList(xs)), ',') == ds;
    var r := ListOf(Some(ShowList(xs))).value;
    var want := seq(|xs|, i requires 0 <= i < |xs| => Int(xs[i]));
    forall i | 0 <= i < |xs| ensures r[i] == want[i] {
      ParseShowNat(xs[i]);
    }
    assert r == want;
  }

  /** An empty list does not survive: "[]" reads back as one empty text
      entry. */
  lemma GetListEmpty()
    ensures ListOf(Some("[]")) == Some([Text("")])
  {
    var r := ListOf(Some("[]")).value;
    assert StripLeft("[]", '[') == "]" by {
      assert "[]"[1..] == "]";
    }
    assert Strip("[]", '[') == "]";
    assert StripRight("]", ']') == "" by {
      assert "]"[..0] == "";
    }
    assert Strip("]", ']') == "";
    assert Cleaned("[]") == "";
    assert Split("", ',') == [""];
    assert ParseToken("") == Text("");
    assert |r| == 1 && r[0] == Text("");
    assert r == [Text("")];
  }

  /** A token that is not all digits stays text: "-1" is not the integer
      -1. */
  lemma NegativeStaysText()
    ensures ParseToken("-1") == Text("-1")
  {
    assert !IsDigit('-');
  }

  /** A join of digit strings starts and ends with a digit. */
  lemma {:induction false} JoinDigitsEnds(ds: seq<string>, sep: string)
    requires |ds| >= 1 && forall i :: 0 <= i < |ds| ==> IsDigits(ds[i])
    ensures var j := Join(ds, sep); |j| > 0 && IsDigit(j[0]) && IsDigit(j[|j| - 1])
    decreases |ds|
  {
    if |ds| > 1 {
      JoinDigitsEnds(ds[1..], sep);
    }
  }

  /** Stripping "[" then "]" from "[" + body + "]" leaves the body when it
      starts and ends with a digit. */
  lemma StripBrackets(body: string)
    requires |body| > 0 && IsDigit(body[0]) && IsDigit(body[|body| - 1])
    ensures Strip(Strip("[" + body + "]", '['), ']') == body
  {
    var s := "[" + body + "]";
    assert s[1..] == body + "]";
    assert StripLeft(s, '[') == body + "]";
    assert StripRight(body + "]", '[') == body + "]";
    assert StripLeft(body + "]", ']') == body + "]";
    assert (body + "]")[..|body|] == body;
    assert StripRight(body + "]", ']') == StripRight(body, ']') == body;
  }

  lemma {:induction false} RemoveSpacesAppend(a: string, b: string)
    ensures RemoveSpaces(a + b) == RemoveSpaces(a) + RemoveSpaces(b)
    decreases |a|
  {
    if a == [] {
      assert a + b == b;
    } else {
      assert (a + b)[0] == a[0] && (a + b)[1..] == a[1..] + b;
      RemoveSpacesAppend(a[1..], b);
    }
  }

  lemma {:induction false} RemoveSpacesNone(s: string)
    requires ' ' !in s
    ensures RemoveSpaces(s) == s
    decreases |s|
  {
    if s != [] {
      RemoveSpacesNone(s[1..]);
    }
  }

  /** Removing the spaces of "1, 2, 3" gives "1,2,3". */
  lemma {:induction false} RemoveSpacesJoin(ds: seq<string>)
    requires |ds| >= 1 && forall i :: 0 <= i < |ds| ==> IsDigits(ds[i])
    ensures RemoveSpaces(Join(ds, ", ")) == Join(ds, ",")
    decreases |ds|
  {
    assert ' ' !in ds[0] by {
      assert forall k :: 0 <= k < |ds[0]| ==> IsDigit(ds[0][k]);
    }
    RemoveSpacesNone(ds[0]);
    if |ds| > 1 {
      RemoveSpacesJoin(ds[1..]);
      RemoveSpacesAppend(ds[0], ", " + Join(ds[1..], ", "));
      RemoveSpacesAppend(", ", Join(ds[1..], ", "));
      assert RemoveSpaces(", ") == ",";
      assert ds[0] + ", " + Join(ds[1..], ", ") == ds[0] + (", " + Join(ds[1..], ", "));
      assert Join(ds, ",") == ds[0] + ("," + Join(ds[1..], ","));
    }
  }

  /** Splitting text that starts with a piece free of the separator: that
      piece opens the first part. */
  lemma {:induction false} SplitPrefix(p: string, s: string, c: char)
    requires c !in p
    ensures Split(p + s, c) == [p + Split(s, c)[0]] + Split(s, c)[1..]
    decreases |p|
  {
    if p != [] {
      assert (p + s)[1..] == p[1..] + s;
      SplitPrefix(p[1..], s, c);
      assert [p[0]] + (p[1..] + Split(s, c)[0]) == p + Split(s, c)[0];
    } else {
      var q := Split(s, c);
      assert p + s == s;
      assert p + q[0] == q[0];
      assert [q[0]] + q[1..] == q;
    }
  }

  /** Splitting a join of separator-free pieces gives the pieces back. */
  lemma {:induction false} SplitJoin(ds: seq<string>, c: char)
    requires |ds| >= 1 && forall i :: 0 <= i < |ds| ==> c !in ds[i]
    ensures Split(Join(ds, [c]), c) == ds
    decreases |ds|
  {
    if |ds| == 1 {
      SplitPrefix(ds[0], "", c);
      assert ds[0] + "" == ds[0];
    } else {
      var tail := Join(ds[1..], [c]);
      SplitJoin(ds[1..], c);
      assert Split([c] + tail, c) == [""] + Split(tail, c);
      assert ds[0] + [c] + tail == ds[0] + ([c] + tail);
      SplitPrefix(ds[0], [c] + tail, c);
      assert ds[0] + "" == ds[0];
      assert [ds[0]] + ds[1..] == ds;
    }
  }

  // ----- get_varlabel -----

  const FlowNames: seq<string> :=
    ["flow", "Flow", "discharge", "Discharge", "inflow", "Inflow", "IN", "Q", "QU", "cfs", "CFS"]
  const PeakNames: seq<string> :=
    ["peak", "Peak", "peaks", "Peaks", "peak discharge", "Peak Discharge"]
  const StageNames: seq<string> :=
    ["stage", "Stage", "feet", "Feet", "FT", "ft", "pool_elevation", "elevation", "Elevation", "elev", "Elev"]
  const SweNames: seq<string> :=
    ["SWE", "swe", "snowpack", "snowdepth", "snow", "SNWD", "WTEQ"]
  const PrecipNames: seq<string> :=
    ["P", "Precip", "Rainfall", "rainfall", "precip", "precipitation", "Precipitation", "PRCP", "PREC"]

  const FlowLabel := "Flow (ft$^3$/s)"
  const PeakLabel := "Peak Flow (ft$^3$/s)"
  const StageLabel := "Stage (ft)"
  const SweLabel := "SWE (in)"
  const PrecipLabel := "Precip. (in)"

  /** The figure label of a variable name: the fixed label of the first
      list that holds the name, the name itself otherwise. */
  function VarLabel(name: string): string
  {
    if name in FlowNames then FlowLabel
    else if name in PeakNames then PeakLabel
    else if name in StageNames then StageLabel
    else if name in SweNames then SweLabel
    else if name in PrecipNames then PrecipLabel
    else name
  }

  /** What the label is taken of: a name, or a frame whose first column
      names the variable. */
  datatype LabelSource = Name(s: string) | Frame(columns: seq<string>)

  /** `get_varlabel`: a frame stands for its first column's name; a frame
      without columns has none (an index error). */
  function VarLabelOf(v: LabelSource): (r: Option<string>)
    ensures r.None? <==> v == Frame([])
    ensures v.Name? ==> r == Some(VarLabel(v.s))
    ensures v.Frame? && v.columns != [] ==> r == Some(VarLabel(v.columns[0]))
  {
    match v
    case Name(s) => Some(VarLabel(s))
    case Frame(cols) => if cols == [] then None else Some(VarLabel(cols[0]))
  }

  /** The name lists do not overlap, so each listed name has exactly the
      label of its own list whatever order the lists are tried in, and an
      unlisted name is its own label. */
  lemma VarLabelCases(name: string)
    ensures name in FlowNames ==> VarLabel(name) == FlowLabel
    ensures name in PeakNames ==> VarLabel(name) == PeakLabel
    ensures name in StageNames ==> VarLabel(name) == StageLabel
    ensures name in SweNames ==> VarLabel(name) == SweLabel
    ensures name in PrecipNames ==> VarLabel(name) == PrecipLabel
    ensures Unlisted(name) ==> VarLabel(name) == name
  {
    PeakNotEarlier(name);
    StageNotEarlier(name);
    SweNotEarlier(name);
    PrecipNotEarlier(name);
  }

  /** A name in none of the lists. */
  predicate Unlisted(name: string)
  {
    name !in FlowNames && name !in PeakNames && name !in StageNames && name !in SweNames && name !in PrecipNames
  }

  lemma PeakNotEarlier(name: string)
    ensures name in PeakNames ==> name !in FlowNames
  {
  }

  lemma StageNotEarlier(name: string)
    ensures name in StageNames ==> name !in FlowNames && name !in PeakNames
  {
  }

  lemma SweNotEarlier(name: string)
    ensures name in SweNames ==> name !in FlowNames && name !in PeakNames && name !in StageNames
  {
  }

  lemma PrecipNotEarlier(name: string)
    ensures name in PrecipNames ==> name !in FlowNames && name !in PeakNames && name !in StageNames && name !in SweNames
  {
  }

  /** No listed name holds a parenthesis; every label does. */
  lemma ListedHaveNoParen(name: string)
    requires !Unlisted(name)
    ensures '(' !in name
  {
    if name in FlowNames { FlowNoParen(name); }
    else if name in PeakNames { PeakNoParen(name); }
    else if name in StageNames { StageNoParen(name); }
    else if name in SweNames { SweNoParen(name); }
    else { PrecipNoParen(name); }
  }

  lemma FlowNoParen(name: string)
    requires name in FlowNames
    ensures '(' !in name
  {
    assert forall k :: 0 <= k < |FlowNames| ==> '(' !in FlowNames[k];
  }

  lemma PeakNoParen(name: string)
    requires name in PeakNames
    ensures '(' !in name
  {
    assert forall k :: 0 <= k < |PeakNames| ==> '(' !in PeakNames[k];
  }

  lemma StageNoParen(name: string)
    requires name in StageNames
    ensures '(' !in name
  {
    assert forall k :: 0 <= k < |StageNames| ==> '(' !in StageNames[k];
  }

  lemma SweNoParen(name: string)
    requires name in SweNames
    ensures '(' !in name
  {
    assert forall k :: 0 <= k < |SweNames| ==> '(' !in SweNames[k];
  }

  lemma PrecipNoParen(name: string)
    requires name in PrecipNames
    ensures '(' !in name
  {
    assert forall k :: 0 <= k < |PrecipNames| ==> '(' !in PrecipNames[k];
  }

  /** Labelling a label changes nothing: no label is itself a listed
      name. */
  lemma VarLabelIdempotent(name: string)
    ensures VarLabel(VarLabel(name)) == VarLabel(name)
  {
    var l := VarLabel(name);
    if l != name {
      assert '(' in l by {
        assert l in [FlowLabel, PeakLabel, StageLabel, SweLabel, PrecipLabel];
        assert FlowLabel[5] == '(' && PeakLabel[10] == '(' && StageLabel[6] == '(';
        assert SweLabel[4] == '(' && PrecipLabel[8] == '(';
      }
      if !Unlisted(l) {
        ListedHaveNoParen(l);
      }
    }
  }

  // ----- getsites, list input -----

  /** One entry of a site list: a list (its first item names the site) or
      a path. */
  datatype SiteSource = Items(items: seq<string>) | Path(path: string)

  /** The site name of a path: its last "/" piece up to the first ".". */
  function SiteName(path: string): (name: string)
    ensures '/' !in name && '.' !in name
  {
    var pieces := Split(path, '/');
    var file := pieces[|pieces| - 1];
    SplitPieceFree(path, '/', '/');
    SplitPieceFree(file, '.', '.');
    SplitPieceFree(file, '.', '/');
    Split(file, '.')[0]
  }

  /** A piece of a split never holds the separator, nor any character the
      text does not hold. */
  lemma {:induction false} SplitPieceFree(s: string, c: char, d: char)
    requires d == c || d !in s
    ensures forall k :: 0 <= k < |Split(s, c)| ==> d !in Split(s, c)[k]
    decreases |s|
  {
    if s != [] {
      assert d == c || d !in s[1..];
      SplitPieceFree(s[1..], c, d);
    }
  }

  /** The name of dir/name.ext is name, whatever the directory. */
  lemma SiteNameOfFile(dir: string, name: string, ext: string)
    requires '/' !in name && '.' !in name && '/' !in ext
    ensures SiteName(dir + "/" + name + "." + ext) == name
  {
    var path := dir + "/" + name + "." + ext;
    var file := name + "." + ext;
    assert '/' !in file;
    assert path == dir + ['/'] + file;
    SplitLast(dir, file, '/');
    var pieces := Split(path, '/');
    assert pieces[|pieces| - 1] == file;
    assert file == name + ("." + ext);
    SplitPrefix(name, "." + ext, '.');
    var rest := "." + ext;
    assert rest[0] == '.' && rest[1..] == ext;
    assert Split(rest, '.')[0] == "";
    assert Split(file, '.')[0] == name + "";
    assert name + "" == name;
  }

  /** After the last separator, the last piece is the rest of the text. */
  lemma {:induction false} SplitLast(a: string, b: string, c: char)
    requires c !in b
    ensures var p := Split(a + [c] + b, c); |p| >= 2 && p[|p| - 1] == b
    decreases |a|
  {
    var s := a + [c] + b;
    if a == [] {
      assert s[0] == c && s[1..] == b;
      SplitPrefix(b, "", c);
      assert b + "" == b;
    } else {
      assert s[0] == a[0] && s[1..] == a[1..] + [c] + b;
      SplitLast(a[1..], b, c);
    }
  }

  /** `getsites` for list input: the names are appended one per entry and
      the sources are the input itself. Each name is the entry's first item
      or its file name without extension; an empty list entry fails. */
  method GetSites(input: seq<SiteSource>) returns (r: Option<(seq<string>, seq<SiteSource>)>)
    ensures r.None? <==> exists k :: 0 <= k < |input| && input[k] == Items([])
    ensures r.Some? ==> r.value.1 == input && |r.value.0| == |input|
    ensures r.Some? ==> forall k :: 0 <= k < |input| ==>
      r.value.0[k] == (if input[k].Items? then input[k].items[0] else SiteName(input[k].path))
  {
    var sites: seq<string> := [];
    for k := 0 to |input|
      invariant |sites| == k
      invariant forall j :: 0 <= j < k ==> input[j] != Items([])
      invariant forall j :: 0 <= j < k ==>
        sites[j] == (if input[j].Items? then input[j].items[0] else SiteName(input[j].path))
    {
      match input[k]
      case Items(items) =>
        if items == [] {
          return None;
        }
        sites := sites + [items[0]];
      case Path(p) =>
        sites := sites + [SiteName(p)];
    }
    r := Some((sites, input));
  }

  // ----- createclone -----

  /** The value of a setting: a string (written in double quotes) or any
      other value, written as Python prints it. */
  datatype Setting = Str(s: string) | Value(text: string)

  const Marker := "### Begin Script ###"

  /** Whether `t` occurs in `s`. */
  predicate Contains(s: string, t: string)
    decreases |s|
  {
    |t| <= |s| && (s[..|t|] == t || Contains(s[1..], t))
  }

  /** The line written for one setting. */
  function SettingLine(key: string, v: Setting): string
  {
    key + " = " + (match v case Str(s) => "\"" + s + "\"" case Value(t) => t) + "\n"
  }

  function SettingLines(settings: seq<(string, Setting)>): (r: seq<string>)
    ensures |r| == |settings|
    ensures forall j :: 0 <= j < |settings| ==> r[j] == SettingLine(settings[j].0, settings[j].1)
  {
    seq(|settings|, j requires 0 <= j < |settings| => SettingLine(settings[j].0, settings[j].1))
  }

  /** The clone of a script: each original line, followed by the settings
      block when it holds the marker. */
  function CloneText(lines: seq<string>, settings: seq<(string, Setting)>): seq<string>
  {
    if lines == [] then []
    else [lines[0]] + (if Contains(lines[0], Marker) then SettingLines(settings) else []) + CloneText(lines[1..], settings)
  }

  /** Number of lines holding the marker. */
  function Markers(lines: seq<string>): nat
  {
    if lines == [] then 0 else (if Contains(lines[0], Marker) then 1 else 0) + Markers(lines[1..])
  }

  /** Cloning two runs of lines one after the other is cloning each: every
      original line is copied in order, and a settings block follows a line
      exactly when that line holds the marker. */
  lemma {:induction false} CloneAppend(a: seq<string>, b: seq<string>, settings: seq<(string, Setting)>)
    ensures CloneText(a + b, settings) == CloneText(a, settings) + CloneText(b, settings)
    decreases |a|
  {
    if a == [] {
      assert a + b == b;
    } else {
      assert (a + b)[0] == a[0];
      assert (a + b)[1..] == a[1..] + b;
      CloneAppend(a[1..], b, settings);
    }
  }

  /** The clone has one line per original line plus one per setting for
      each marker line. */
  lemma {:induction false} CloneLength(lines: seq<string>, settings: seq<(string, Setting)>)
    ensures |CloneText(lines, settings)| == |lines| + Markers(lines) * |settings|
    decreases |lines|
  {
    if lines != [] {
      CloneLength(lines[1..], settings);
      var m := if Contains(lines[0], Marker) then 1 else 0;
      assert (m + Markers(lines[1..])) * |settings| == m * |settings| + Markers(lines[1..]) * |settings|;
    }
  }

  /** Without settings the clone is a copy of the script. */
  lemma {:induction false} CloneNoSettings(lines: seq<string>)
    ensures CloneText(lines, []) == lines
    decreases |lines|
  {
    if lines != [] {
      CloneNoSettings(lines[1..]);
      assert SettingLines([]) == [];
      assert lines == [lines[0]] + lines[1..];
    }
  }

  /** `createclone` without the file access: the lines are written one by
      one, each marker line followed by one "key = setting" line per
      setting. */
  method CloneLines(lines: seq<string>, settings: seq<(string, Setting)>) returns (out: seq<string>)
    ensures out == CloneText(lines, settings)
  {
    out := [];
    for i := 0 to |lines|
      invariant out + CloneText(lines[i..], settings) == CloneText(lines, settings)
    {
      var block: seq<string> := [];
      if Contains(lines[i], Marker) {
        for j := 0 to |settings|
          invariant block == SettingLines(settings)[..j]
        {
          block := block + [SettingLine(settings[j].0, settings[j].1)];
        }
        assert SettingLines(settings)[..|settings|] == SettingLines(settings);
      }
      CloneStep(lines, i, settings, out, block);
      out := out + [lines[i]] + block;
    }
    assert lines[|lines|..] == [];
    assert out + [] == out;
  }

  lemma CloneStep(lines: seq<string>, i: nat, settings: seq<(string, Setting)>, out: seq<string>, block: seq<string>)
    requires i < |lines|
    requires block == if Contains(lines[i], Marker) then SettingLines(settings) else []
    ensures out + CloneText(lines[i..], settings) == out + [lines[i]] + block + CloneText(lines[i + 1..], settings)
  {
    assert lines[i..][0] == lines[i] && lines[i..][1..] == lines[i + 1..];
  }
}
