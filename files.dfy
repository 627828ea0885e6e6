/** The sample-sheet and contrast-file parsers of `src/files.py`.

    A file is the sequence of its lines, as iterating over the open file yields
    them (a line may keep its terminator: every field is stripped of
    whitespace before use). `fatal` becomes a `Failure` carrying the reason;
    the warnings printed with `err` carry no data and are not modelled. */
module Files {
  import opened Wrappers
  import opened Lists
  import opened Strings

  /** Why the program stops with `fatal`. */
  datatype Fatal =
    | EmptyGroupsFile
      /** The groups, in order and with repetitions, that the contrasts name but
          the sample sheet does not define; the message joins them with ','. */
    | UndefinedGroups(names: seq<string>)

  /** The default characters of `clean`: the double and the single quote. */
  const Quotes: seq<char> := ['"', '\'']

  /** The columns `groups` asks `index` for. */
  const Required: seq<string> := ["sample", "group"]

  // ---------------------------------------------------------------------
  // clean
  // ---------------------------------------------------------------------

  /** The characters of `remove`, as a set. */
  function Chars(remove: seq<char>): (cs: set<char>)
    ensures forall k :: 0 <= k < |remove| ==> remove[k] in cs
    ensures forall c :: c in cs ==> exists k :: 0 <= k < |remove| && remove[k] == c
  {
    if remove == [] then {} else Chars(Init(remove)) + {Last(remove)}
  }

  /** `s` after stripping each character of `remove` in turn from both ends. */
  function Cleaned(s: string, remove: seq<char>): string
  {
    if remove == [] then s else Strip(Cleaned(s, Init(remove)), {Last(remove)})
  }

  /** Cleaning only removes characters from the two ends, and only characters
      of `remove`. */
  lemma {:induction false} CleanedTrims(s: string, remove: seq<char>)
    ensures exists i :: Trimmed(Cleaned(s, remove), s, Chars(remove), i)
  {
    if remove == [] {
      assert Cleaned(s, remove) == s == s[0..|s|];
      assert Trimmed(s, s, Chars(remove), 0);
    } else {
      var t := Cleaned(s, Init(remove));
      var r := Cleaned(s, remove);
      assert r == Strip(t, {Last(remove)});
      CleanedTrims(s, Init(remove));
      var i :| Trimmed(t, s, Chars(Init(remove)), i);
      var j :| Trimmed(r, t, {Last(remove)}, j);
      TrimmedTrans(r, t, s, Chars(Init(remove)), {Last(remove)}, j, i);
      assert Chars(remove) == Chars(Init(remove)) + {Last(remove)};
      assert Trimmed(r, s, Chars(remove), i + j);
    }
  }

  /** `clean(s, remove)`: the result is a middle part of `s`, what was cut off
      consists of characters of `remove`, and the last character of `remove`
      is gone from both ends. */
  method Clean(s: string, remove: seq<char>) returns (r: string)
    ensures r == Cleaned(s, remove)
    ensures exists i :: Trimmed(r, s, Chars(remove), i)
    ensures remove != [] && r != [] ==> r[0] != Last(remove) && r[|r| - 1] != Last(remove)
  {
    r := s;
    for i := 0 to |remove|
      invariant r == Cleaned(s, remove[..i])
    {
      assert Init(remove[..i + 1]) == remove[..i];
      r := Strip(r, {remove[i]});
    }
    assert remove[..|remove|] == remove;
    CleanedTrims(s, remove);
    if remove != [] {
      CleanedEnds(s, remove);
    }
  }

  /** The last stripping pass leaves neither end of the result equal to the
      character it strips. */
  lemma CleanedEnds(s: string, remove: seq<char>)
    requires remove != []
    ensures var r := Cleaned(s, remove); r != [] ==> r[0] != Last(remove) && r[|r| - 1] != Last(remove)
  {
    var t := Cleaned(s, Init(remove));
    assert Cleaned(s, remove) == Strip(t, {Last(remove)});
  }

  /** `clean` is not idempotent: a value quoted as '"a"' loses one pair of
      quotes per pass. */
  lemma CleanNotIdempotent()
    ensures Cleaned("'\"a\"'", Quotes) == "\"a\""
    ensures Cleaned("\"a\"", Quotes) == "a"
  {
    CleanedQuotes("'\"a\"'");
    CleanedQuotes("\"a\"");
    StripOuterSingle();
    StripDouble();
  }

  /** With the default characters, `clean` strips double quotes, then single
      quotes. */
  lemma CleanedQuotes(s: string)
    ensures Cleaned(s, Quotes) == Strip(Strip(s, {'"'}), {'\''})
  {
    assert Init(Quotes) == ['"'] && Last(Quotes) == '\'';
    assert Init(['"']) == [] && Last(['"']) == '"';
    assert Cleaned(s, []) == s;
    assert Cleaned(s, ['"']) == Strip(s, {'"'});
  }

  lemma StripOuterSingle()
    ensures Strip("'\"a\"'", {'"'}) == "'\"a\"'"
    ensures Strip("'\"a\"'", {'\''}) == "\"a\""
  {
    KeepOuterSingle();
    var s, u := "'\"a\"'", "\"a\"";
    assert s[1..] == u + "'";
    assert TrimStart(u + "'", {'\''}) == u + "'";
    assert (u + "'")[..3] == u;
    assert TrimEnd(u, {'\''}) == u;
  }

  lemma KeepOuterSingle()
    ensures Strip("'\"a\"'", {'"'}) == "'\"a\"'"
  {
    var s := "'\"a\"'";
    assert TrimStart(s, {'"'}) == s;
    assert TrimEnd(s, {'"'}) == s;
  }

  lemma StripDouble()
    ensures Strip("\"a\"", {'"'}) == "a"
    ensures Strip("a", {'\''}) == "a"
  {
    assert "\"a\""[1..] == "a\"";
    assert TrimStart("a\"", {'"'}) == "a\"";
    assert "a\""[..1] == "a";
    assert TrimEnd("a", {'"'}) == "a";
    assert TrimStart("a", {'\''}) == "a";
    assert TrimEnd("a", {'\''}) == "a";
  }

  // ---------------------------------------------------------------------
  // index
  // ---------------------------------------------------------------------

  /** What `index` returns: the column of each name, and whether the first
      line was recognised as a header. */
  datatype Columns = Columns(indices: map<string, nat>, hasHeader: bool)

  function Lowered(names: seq<string>): (r: seq<string>)
    ensures |r| == |names|
    ensures forall i :: 0 <= i < |names| ==> r[i] == Lower(names[i])
  {
    if names == [] then [] else [Lower(names[0])] + Lowered(names[1..])
  }

  /** The header columns: the first line stripped and split on `delim`, each
      column lowercased, stripped and cleaned. */
  function HeaderFields(line: string, delim: char): seq<string>
  {
    HeaderColumns(Split(Strip(line, Whitespace), {delim}))
  }

  function HeaderColumns(cols: seq<string>): seq<string>
  {
    if cols == [] then [] else [CleanField(Lower(cols[0]))] + HeaderColumns(cols[1..])
  }

  /** `index(file, delim, required)`. An empty file is fatal; otherwise the
      columns are located in the first line as `Locate` describes. */
  method Index(lines: seq<string>, delim: char, required: seq<string>) returns (r: Result<Columns, Fatal>)
    ensures r.Failure? <==> lines == []
    ensures r.Failure? ==> r.error == EmptyGroupsFile
    ensures r.Success? ==> LocatedIn(HeaderFields(lines[0], delim), required, r.value)
  {
    if lines == [] {
      return Failure(EmptyGroupsFile);
    }
    var header := HeaderFields(lines[0], delim);
    var columns := Locate(header, required);
    return Success(columns);
  }

  /** What `index` promises about the columns it finds in `header`. When every
      lowercased required name is a header column, each maps to its first
      column and the file has a header. Otherwise the file has no header and
      each required name (not lowercased) maps to its own position in
      `required` (the last one, should a name repeat), while the lowercased
      names matched before the first missing one keep their columns, and the
      map has no other key. */
  ghost predicate LocatedIn(header: seq<string>, required: seq<string>, c: Columns)
  {
    && (c.hasHeader <==> forall i :: 0 <= i < |required| ==> Lower(required[i]) in header)
    && (c.hasHeader ==>
          && (forall k :: k in c.indices <==> k in Lowered(required))
          && forall k :: k in c.indices ==> IsFirstAt(header, k, c.indices[k]))
    && (!c.hasHeader ==>
          && (forall i :: 0 <= i < |required| ==>
                required[i] in c.indices && IsLastAt(required, required[i], c.indices[required[i]]))
          && (forall k :: k in c.indices <==>
                k in required || exists j :: 0 <= j < MatchedPrefix(header, required) && Lower(required[j]) == k)
          && (forall k :: k in c.indices && k !in required ==> IsFirstAt(header, k, c.indices[k])))
  }

  /** How many required names, from the front, are found (lowercased) in
      the header: the position of the first missing one, if any. */
  function MatchedPrefix(header: seq<string>, required: seq<string>): (m: nat)
    ensures m <= |required|
    ensures forall j :: 0 <= j < m ==> Lower(required[j]) in header
    ensures m < |required| ==> Lower(required[m]) !in header
  {
    if required == [] || Lower(required[0]) !in header then 0
    else 1 + MatchedPrefix(header, required[1..])
  }

  /** The column search of `index`: look up each lowercased required name in
      the header and, at the first one missing, fall back to the positions of
      the names in `required`. */
  method Locate(header: seq<string>, required: seq<string>) returns (c: Columns)
    ensures LocatedIn(header, required, c)
    ensures !c.hasHeader && NoDuplicates(required) ==>
      forall i :: 0 <= i < |required| ==> c.indices[required[i]] == i
  {
    var indices, matched := MatchColumns(header, required);
    if matched == |required| {
      c := Columns(indices, true);
      HeaderFound(header, required, indices);
    } else {
      var found := indices;
      indices := Positional(indices, required);
      c := Columns(indices, false);
      HeaderMissing(header, required, found, indices);
    }
  }

  /** The `try` loop of `index`: record the first column of each lowercased
      required name until one is missing (where `list.index` raises). */
  method MatchColumns(header: seq<string>, required: seq<string>) returns (indices: map<string, nat>, matched: nat)
    ensures matched == MatchedPrefix(header, required)
    ensures forall k :: k in indices <==> exists j :: 0 <= j < matched && Lower(required[j]) == k
    ensures forall k :: k in indices ==> IndexOf(header, k) == Some(indices[k])
  {
    indices := map[];
    var i := 0;
    while i < |required|
      invariant 0 <= i <= |required|
      invariant forall j :: 0 <= j < i ==> Lower(required[j]) in header
      invariant forall k :: k in indices <==> exists j :: 0 <= j < i && Lower(required[j]) == k
      invariant forall k :: k in indices ==> IndexOf(header, k) == Some(indices[k])
    {
      var col := Lower(required[i]);
      var pos := IndexOf(header, col);
      if pos.None? {
        break;
      }
      indices := indices[col := pos.value];
      i := i + 1;
    }
    matched := i;
    assert matched == MatchedPrefix(header, required);
  }

  lemma HeaderFound(header: seq<string>, required: seq<string>, indices: map<string, nat>)
    requires MatchedPrefix(header, required) == |required|
    requires forall k :: k in indices <==> exists j :: 0 <= j < |required| && Lower(required[j]) == k
    requires forall k :: k in indices ==> IndexOf(header, k) == Some(indices[k])
    ensures LocatedIn(header, required, Columns(indices, true))
  {
    forall k ensures k in indices <==> k in Lowered(required) {
      if k in Lowered(required) {
        var j :| 0 <= j < |required| && Lowered(required)[j] == k;
      }
    }
  }

  lemma HeaderMissing(header: seq<string>, required: seq<string>, found: map<string, nat>, indices: map<string, nat>)
    requires MatchedPrefix(header, required) < |required|
    requires forall k :: k in found <==> exists j :: 0 <= j < MatchedPrefix(header, required) && Lower(required[j]) == k
    requires forall k :: k in found ==> IndexOf(header, k) == Some(found[k])
    requires forall n :: 0 <= n < |required| ==>
      required[n] in indices && LastIndexOf(required, required[n]) == Some(indices[required[n]])
    requires forall k :: k in indices <==> k in found || k in required
    requires forall k :: k in indices && k !in required ==> indices[k] == found[k]
    ensures LocatedIn(header, required, Columns(indices, false))
    ensures NoDuplicates(required) ==> forall n :: 0 <= n < |required| ==> indices[required[n]] == n
  {
    var m := MatchedPrefix(header, required);
    assert Lower(required[m]) !in header;
    forall k | k in indices && k !in required
      ensures IsFirstAt(header, k, indices[k])
    {
      assert k in found && indices[k] == found[k];
    }
  }

  /** The fallback of `index`: record each name of `required` at its own
      position, over the columns found so far. A repeated name ends at its last
      position; keys that are not required names keep their columns. */
  method Positional(found: map<string, nat>, required: seq<string>) returns (indices: map<string, nat>)
    ensures forall i :: 0 <= i < |required| ==>
      required[i] in indices && LastIndexOf(required, required[i]) == Some(indices[required[i]])
    ensures forall k :: k in indices <==> k in found || k in required
    ensures forall k :: k in indices && k !in required ==> indices[k] == found[k]
  {
    indices := found;
    for n := 0 to |required|
      invariant forall k :: k in indices <==> k in found || k in required[..n]
      invariant forall k :: k in indices && k !in required[..n] ==> indices[k] == found[k]
      invariant forall j :: 0 <= j < n ==>
        required[j] in indices && LastIndexOf(required[..n], required[j]) == Some(indices[required[j]])
    {
      assert required[..n + 1] == required[..n] + [required[n]];
      ghost var before := indices;
      indices := indices[required[n] := n];
      forall j | 0 <= j < n + 1
        ensures required[j] in indices
        ensures LastIndexOf(required[..n + 1], required[j]) == Some(indices[required[j]])
      {
        LastIndexOfSnoc(required[..n], required[n], required[j]);
        if required[j] != required[n] {
          assert j < n && indices[required[j]] == before[required[j]];
        }
      }
    }
    assert required[..|required|] == required;
  }

  // ---------------------------------------------------------------------
  // groups
  // ---------------------------------------------------------------------

  /** The two columns `groups` reads, and whether it skips the first line. */
  datatype Layout = Layout(sampleColumn: nat, groupColumn: nat, hasHeader: bool)

  /** The layout `index` reports for the required names "sample" and "group":
      their first header columns when both are present, columns 0 and 1
      without a header otherwise. */
  function SheetLayout(header: seq<string>): Layout
  {
    if "sample" in header && "group" in header
    then Layout(IndexOf(header, "sample").value, IndexOf(header, "group").value, true)
    else Layout(0, 1, false)
  }

  lemma LowerRequired()
    ensures Lower("sample") == "sample" && Lower("group") == "group"
  {
    assert forall i :: 0 <= i < 6 ==> LowerChar("sample"[i]) == "sample"[i];
    assert forall i :: 0 <= i < 5 ==> LowerChar("group"[i]) == "group"[i];
  }

  /** What `index` returns for the required names is the layout above. */
  lemma {:induction false} RequiredLayout(header: seq<string>, c: Columns)
    requires LocatedIn(header, Required, c)
    ensures "sample" in c.indices && "group" in c.indices
    ensures SheetLayout(header) == Layout(c.indices["sample"], c.indices["group"], c.hasHeader)
  {
    LowerRequired();
    assert Lowered(Required) == Required;
    if c.hasHeader {
      assert "sample" in Lowered(Required) && "group" in Lowered(Required);
      var p, q := IndexOf(header, "sample").value, IndexOf(header, "group").value;
      assert IsFirstAt(header, "sample", c.indices["sample"]);
      assert IsFirstAt(header, "group", c.indices["group"]);
    } else {
      assert Required[0] == "sample" && Required[1] == "group";
      assert IsLastAt(Required, "sample", c.indices["sample"]);
      assert IsLastAt(Required, "group", c.indices["group"]);
    }
  }

  /** `[l.strip() for l in parts]` */
  function StripEach(parts: seq<string>): (r: seq<string>)
    ensures |r| == |parts|
    ensures forall i :: 0 <= i < |parts| ==> r[i] == Strip(parts[i], Whitespace)
  {
    if parts == [] then [] else [Strip(parts[0], Whitespace)] + StripEach(parts[1..])
  }

  /** `clean(l.strip())` */
  function CleanField(l: string): string
  {
    Cleaned(Strip(l, Whitespace), Quotes)
  }

  /** `[clean(l.strip()) for l in parts]` */
  function CleanEach(parts: seq<string>): (r: seq<string>)
    ensures |r| == |parts|
    ensures forall i :: 0 <= i < |parts| ==> r[i] == CleanField(parts[i])
  {
    if parts == [] then [] else [CleanField(parts[0])] + CleanEach(parts[1..])
  }

  /** The fields of a sample-sheet line: split on `delim`, each stripped. */
  function Fields(line: string, delim: char): seq<string>
  {
    StripEach(Split(line, {delim}))
  }

  /** The groups named in a group field: split on ',' and ';', each part
      stripped and cleaned. Empty parts are kept. */
  function GroupNames(group: string): seq<string>
  {
    CleanEach(Split(group, {',', ';'}))
  }

  /** One sample of the sheet and the groups it belongs to. */
  datatype Entry = Entry(sample: string, groups: seq<string>)

  /** How `groups` treats one data line: skipped for a missing column, skipped
      for an empty sample or group, or read as an entry. */
  datatype SampleLine = MissingColumn | MissingValue | Member(entry: Entry)

  function ReadSampleLine(line: string, delim: char, layout: Layout): SampleLine
  {
    var fields := Fields(line, delim);
    if layout.sampleColumn >= |fields| || layout.groupColumn >= |fields| then MissingColumn
    else
      var sample := Cleaned(fields[layout.sampleColumn], Quotes);
      var group := fields[layout.groupColumn];
      if sample == "" || group == "" then MissingValue
      else Member(Entry(sample, GroupNames(group)))
  }

  /** Every data line, read. */
  function SampleLines(data: seq<string>, delim: char, layout: Layout): (r: seq<SampleLine>)
    ensures |r| == |data|
    ensures forall k :: 0 <= k < |data| ==> r[k] == ReadSampleLine(data[k], delim, layout)
  {
    if data == [] then [] else [ReadSampleLine(data[0], delim, layout)] + SampleLines(data[1..], delim, layout)
  }

  /** The entries of the accepted lines, in file order. */
  function Accepted(ls: seq<SampleLine>): seq<Entry>
  {
    if ls == [] then []
    else
      Accepted(Init(ls)) +
      match Last(ls)
      case Member(e) => [e]
      case _ => []
  }

  /** The entries of the accepted data lines, in file order. */
  function Entries(data: seq<string>, delim: char, layout: Layout): seq<Entry>
  {
    Accepted(SampleLines(data, delim, layout))
  }

  lemma EntriesSnoc(data: seq<string>, delim: char, layout: Layout, n: nat)
    requires n < |data|
    ensures Entries(data[..n + 1], delim, layout) == Entries(data[..n], delim, layout) +
      match ReadSampleLine(data[n], delim, layout)
      case Member(e) => [e]
      case _ => []
  {
    var ls := SampleLines(data[..n + 1], delim, layout);
    assert Init(ls) == SampleLines(data[..n], delim, layout);
    assert Last(ls) == ReadSampleLine(data[n], delim, layout);
  }

  /** The lines `groups` reads entries from: all but the header, if any. */
  function DataLines(lines: seq<string>, layout: Layout): seq<string>
    requires lines != []
  {
    if layout.hasHeader then lines[1..] else lines
  }

  /** The entries of a sample sheet. `groups` asks `index` for the columns
      without passing its own delimiter on, so the header is always split on
      tabs while the data lines are split on `delim`. */
  function SampleSheet(lines: seq<string>, delim: char): seq<Entry>
    requires lines != []
  {
    var layout := SheetLayout(HeaderFields(lines[0], '\t'));
    Entries(DataLines(lines, layout), delim, layout)
  }

  /** The samples of the entries that name group `g`, in file order,
      repetitions included. */
  function Members(entries: seq<Entry>, g: string): seq<string>
  {
    if entries == [] then []
    else Members(Init(entries), g) + if g in Last(entries).groups then [Last(entries).sample] else []
  }

  lemma MembersSnoc(entries: seq<Entry>, e: Entry, g: string)
    ensures Members(entries + [e], g) == Members(entries, g) + if g in e.groups then [e.sample] else []
  {
    assert Init(entries + [e]) == entries;
  }

  /** `groups(file, delim)`: a map from every group named by an accepted line
      to its samples, each listed once, in the order of their first accepted
      line. An empty file is fatal. */
  method Groups(lines: seq<string>, delim: char) returns (r: Result<map<string, seq<string>>, Fatal>)
    ensures r.Failure? <==> lines == []
    ensures r.Failure? ==> r.error == EmptyGroupsFile
    ensures r.Success? ==> forall g :: g in r.value <==> Members(SampleSheet(lines, delim), g) != []
    ensures r.Success? ==> forall g :: g in r.value ==> r.value[g] == Dedup(Members(SampleSheet(lines, delim), g))
    ensures r.Success? ==> forall g :: g in r.value ==> NoDuplicates(r.value[g])
  {
    var columns := Index(lines, '\t', Required);
    if columns.Failure? {
      return Failure(columns.error);
    }
    RequiredLayout(HeaderFields(lines[0], '\t'), columns.value);
    var indices, header := columns.value.indices, columns.value.hasHeader;
    var layout := Layout(indices["sample"], indices["group"], header);
    var data := if header then lines[1..] else lines;
    var groups := ReadSamples(data, delim, layout);
    return Success(groups);
  }

  /** The line loop of `groups` over the data lines: every accepted line adds
      its sample under each of its groups, unless already listed there. */
  method ReadSamples(data: seq<string>, delim: char, layout: Layout) returns (groups: map<string, seq<string>>)
    ensures forall g :: g in groups <==> Members(Entries(data, delim, layout), g) != []
    ensures forall g :: g in groups ==> groups[g] == Dedup(Members(Entries(data, delim, layout), g))
  {
    groups := map[];
    for n := 0 to |data|
      invariant Grouped(groups, Entries(data[..n], delim, layout))
    {
      var line := ParseSampleLine(data[n], delim, layout);
      ghost var before := groups;
      if line.Member? {
        groups := AddToGroups(groups, line.entry.sample, line.entry.groups);
      }
      ReadStep(before, groups, data, delim, layout, n, line);
    }
    assert data[..|data|] == data;
  }

  /** `groups` holds, for every group named by `entries`, its samples once
      each, and no other group. */
  ghost predicate Grouped(groups: map<string, seq<string>>, entries: seq<Entry>)
  {
    forall g :: (g in groups <==> Members(entries, g) != []) && (g in groups ==> groups[g] == Dedup(Members(entries, g)))
  }

  lemma ReadStep(before: map<string, seq<string>>, after: map<string, seq<string>>, data: seq<string>, delim: char,
                 layout: Layout, n: nat, line: SampleLine)
    requires n < |data| && line == ReadSampleLine(data[n], delim, layout)
    requires Grouped(before, Entries(data[..n], delim, layout))
    requires !line.Member? ==> after == before
    requires line.Member? ==> forall g :: g in after <==> g in before || g in line.entry.groups
    requires line.Member? ==> forall g :: g in after ==>
      after[g] == if g in line.entry.groups then AddOnce(Lookup(before, g), line.entry.sample) else before[g]
    ensures Grouped(after, Entries(data[..n + 1], delim, layout))
  {
    var entries := Entries(data[..n], delim, layout);
    EntriesSnoc(data, delim, layout, n);
    if line.Member? {
      assert Entries(data[..n + 1], delim, layout) == entries + [line.entry];
      RegisterEntry(before, after, entries, line.entry);
    } else {
      assert Entries(data[..n + 1], delim, layout) == entries;
    }
  }

  /** The body of the line loop of `groups`: split and strip the line, skip it
      when a column is missing, clean the sample, and skip the line when the
      sample or the group is empty. */
  method ParseSampleLine(line: string, delim: char, layout: Layout) returns (r: SampleLine)
    ensures r == ReadSampleLine(line, delim, layout)
    ensures r.MissingColumn? <==>
      layout.sampleColumn >= |Split(line, {delim})| || layout.groupColumn >= |Split(line, {delim})|
    ensures r.Member? ==> r.entry.sample != "" && Avoids(r.entry.sample, {delim}) && |r.entry.groups| >= 1
    ensures r.Member? ==> forall k :: 0 <= k < |r.entry.groups| ==> Avoids(r.entry.groups[k], {delim, ',', ';'})
  {
    SampleLineShape(line, delim, layout);
    var linelist := Fields(line, delim);
    if layout.sampleColumn >= |linelist| || layout.groupColumn >= |linelist| {
      return MissingColumn;
    }
    var sample := Clean(linelist[layout.sampleColumn], Quotes);
    var group := linelist[layout.groupColumn];
    if sample == "" || group == "" {
      return MissingValue;
    }
    var multipleGroups := GroupNames(group);
    return Member(Entry(sample, multipleGroups));
  }

  /** What a line read as an entry holds: a missing column means the split
      line is too short, and an entry has a non-empty sample and at least one
      group, none of which holds the delimiter, and no group holds ',' or
      ';'. */
  lemma SampleLineShape(line: string, delim: char, layout: Layout)
    ensures var r := ReadSampleLine(line, delim, layout);
      && (r.MissingColumn? <==>
          layout.sampleColumn >= |Split(line, {delim})| || layout.groupColumn >= |Split(line, {delim})|)
      && (r.Member? ==> r.entry.sample != "" && Avoids(r.entry.sample, {delim}) && |r.entry.groups| >= 1)
      && (r.Member? ==> forall k :: 0 <= k < |r.entry.groups| ==> Avoids(r.entry.groups[k], {delim, ',', ';'}))
  {
    var parts := Split(line, {delim});
    if layout.sampleColumn < |parts| && layout.groupColumn < |parts| {
      var fields := Fields(line, delim);
      FieldAvoids(line, delim, layout.sampleColumn);
      CleanedAvoids(fields[layout.sampleColumn], Quotes, {delim});
      FieldAvoids(line, delim, layout.groupColumn);
      GroupNamesAvoid(fields[layout.groupColumn], delim);
    }
  }

  /** A field of a line holds no delimiter. */
  lemma FieldAvoids(line: string, delim: char, n: nat)
    requires n < |Split(line, {delim})|
    ensures Avoids(Fields(line, delim)[n], {delim})
  {
    SplitPieces(line, {delim});
    StripAvoids(Split(line, {delim})[n], Whitespace, {delim});
  }

  /** Cleaning keeps a string free of the characters it avoids. */
  lemma CleanedAvoids(s: string, remove: seq<char>, avoid: set<char>)
    requires Avoids(s, avoid)
    ensures Avoids(Cleaned(s, remove), avoid)
  {
    CleanedTrims(s, remove);
    var i :| Trimmed(Cleaned(s, remove), s, Chars(remove), i);
    TrimmedAvoids(Cleaned(s, remove), s, Chars(remove), i, avoid);
  }

  /** Each cleaned piece of a split avoids every character that occurs in the
      split string only as a separator. */
  lemma CleanEachAvoids(s: string, seps: set<char>, avoid: set<char>)
    requires forall k :: 0 <= k < |s| ==> s[k] in seps || s[k] !in avoid
    ensures forall k :: 0 <= k < |Split(s, seps)| ==> Avoids(CleanEach(Split(s, seps))[k], avoid)
  {
    var parts := Split(s, seps);
    SplitPiecesAvoid(s, seps, avoid);
    forall k | 0 <= k < |parts| ensures Avoids(CleanEach(parts)[k], avoid) {
      StripAvoids(parts[k], Whitespace, avoid);
      CleanedAvoids(Strip(parts[k], Whitespace), Quotes, avoid);
    }
  }

  /** The group names of a field without the delimiter: at least one, and
      none holds the delimiter, ',' or ';'. */
  lemma GroupNamesAvoid(group: string, delim: char)
    requires Avoids(group, {delim})
    ensures |GroupNames(group)| >= 1
    ensures forall k :: 0 <= k < |GroupNames(group)| ==> Avoids(GroupNames(group)[k], {delim, ',', ';'})
  {
    CleanEachAvoids(group, {',', ';'}, {delim, ',', ';'});
  }

  /** The map of `groups` after one more accepted entry. */
  lemma RegisterEntry(before: map<string, seq<string>>, after: map<string, seq<string>>, entries: seq<Entry>, e: Entry)
    requires Grouped(before, entries)
    requires forall g :: g in after <==> g in before || g in e.groups
    requires forall g :: g in after ==> after[g] == if g in e.groups then AddOnce(Lookup(before, g), e.sample) else before[g]
    ensures Grouped(after, entries + [e])
  {
    forall g
      ensures g in after <==> Members(entries + [e], g) != []
      ensures g in after ==> after[g] == Dedup(Members(entries + [e], g))
    {
      MembersSnoc(entries, e, g);
      RegisterStep(before, after, g, Members(entries, g), Members(entries + [e], g), g in e.groups, e.sample);
    }
  }

  /** The inner loop of `groups`: put `sample` under each group of `gs`,
      creating the group when new and skipping it when already listed there. */
  method AddToGroups<G, S(==)>(groups: map<G, seq<S>>, sample: S, gs: seq<G>) returns (groups': map<G, seq<S>>)
    ensures forall g :: g in groups' <==> g in groups || g in gs
    ensures forall g :: g in groups' ==>
      groups'[g] == if g in gs then AddOnce(Lookup(groups, g), sample) else groups[g]
  {
    groups' := groups;
    for j := 0 to |gs|
      invariant forall g :: g in groups' <==> g in groups || g in gs[..j]
      invariant forall g :: g in groups' ==>
        groups'[g] == if g in gs[..j] then AddOnce(Lookup(groups, g), sample) else groups[g]
    {
      var g := gs[j];
      if g !in groups' {
        groups' := groups'[g := []];
      }
      if sample !in groups'[g] {
        groups' := groups'[g := groups'[g] + [sample]];
      }
      assert gs[..j + 1] == gs[..j] + [g];
    }
    assert gs[..|gs|] == gs;
  }

  /** A sample is listed under `g` exactly when some entry with that sample
      names `g`. */
  lemma {:induction false} MembersIff(entries: seq<Entry>, g: string, sample: string)
    ensures sample in Members(entries, g) <==>
      exists k :: 0 <= k < |entries| && entries[k].sample == sample && g in entries[k].groups
  {
    if entries != [] {
      var init, last := Init(entries), Last(entries);
      MembersIff(init, g, sample);
      assert entries == init + [last];
      if exists k :: 0 <= k < |entries| && entries[k].sample == sample && g in entries[k].groups {
        var k :| 0 <= k < |entries| && entries[k].sample == sample && g in entries[k].groups;
        if k < |init| {
          assert init[k] == entries[k];
        }
      }
      if sample in Members(entries, g) && sample !in Members(init, g) {
        assert entries[|entries| - 1] == last;
      }
    }
  }

  /** The accepted entries are exactly the lines read as members. */
  lemma {:induction false} AcceptedIff(ls: seq<SampleLine>, e: Entry)
    ensures e in Accepted(ls) <==> Member(e) in ls
  {
    if ls != [] {
      AcceptedIff(Init(ls), e);
      assert ls == Init(ls) + [Last(ls)];
    }
  }

  /** The entries are exactly the data lines read as members. */
  lemma EntriesIff(data: seq<string>, delim: char, layout: Layout, e: Entry)
    ensures e in Entries(data, delim, layout) <==>
      exists k :: 0 <= k < |data| && ReadSampleLine(data[k], delim, layout) == Member(e)
  {
    var ls := SampleLines(data, delim, layout);
    AcceptedIff(ls, e);
    if Member(e) in ls {
      var k :| 0 <= k < |ls| && ls[k] == Member(e);
    }
  }

  /** Sample `sample` is listed under group `g` exactly when an accepted data
      line (not the header, with both columns and a non-empty sample and
      group) has `sample` as its cleaned sample and `g` among its groups. */
  lemma GroupListing(lines: seq<string>, delim: char, g: string, sample: string)
    requires lines != []
    ensures var layout := SheetLayout(HeaderFields(lines[0], '\t'));
      var data := DataLines(lines, layout);
      sample in Dedup(Members(SampleSheet(lines, delim), g)) <==>
        exists k :: 0 <= k < |data| && ReadSampleLine(data[k], delim, layout).Member? &&
          ReadSampleLine(data[k], delim, layout).entry.sample == sample &&
          g in ReadSampleLine(data[k], delim, layout).entry.groups
  {
    var layout := SheetLayout(HeaderFields(lines[0], '\t'));
    var data := DataLines(lines, layout);
    var entries := SampleSheet(lines, delim);
    var members := Members(entries, g);
    MembersIff(entries, g, sample);
    assert sample in Dedup(members) <==> sample in members by {
      if sample in members {
        var k :| 0 <= k < |members| && members[k] == sample;
      }
    }
    if sample in members {
      var i :| 0 <= i < |entries| && entries[i].sample == sample && g in entries[i].groups;
      EntriesIff(data, delim, layout, entries[i]);
    }
    if exists k :: 0 <= k < |data| && ReadSampleLine(data[k], delim, layout).Member? &&
         ReadSampleLine(data[k], delim, layout).entry.sample == sample &&
         g in ReadSampleLine(data[k], delim, layout).entry.groups {
      var k :| 0 <= k < |data| && ReadSampleLine(data[k], delim, layout).Member? &&
         ReadSampleLine(data[k], delim, layout).entry.sample == sample &&
         g in ReadSampleLine(data[k], delim, layout).entry.groups;
      var e := ReadSampleLine(data[k], delim, layout).entry;
      EntriesIff(data, delim, layout, e);
      var i :| 0 <= i < |entries| && entries[i] == e;
    }
  }

  lemma CleanedEmpty(remove: seq<char>)
    ensures Cleaned("", remove) == ""
  {
    CleanedTrims("", remove);
  }

  lemma CleanEachConcat(a: seq<string>, b: seq<string>)
    ensures CleanEach(a + b) == CleanEach(a) + CleanEach(b)
  {
    var l, r := CleanEach(a + b), CleanEach(a) + CleanEach(b);
    assert |l| == |r|;
    forall i | 0 <= i < |l|
      ensures l[i] == r[i]
    {
      if i < |a| {
        assert (a + b)[i] == a[i];
      } else {
        assert (a + b)[i] == b[i - |a|];
      }
    }
  }

  /** A trailing ',' (or ';') in a group field names the empty group. */
  lemma TrailingSeparatorGivesEmptyGroup(group: string, sep: char)
    requires sep in {',', ';'}
    ensures GroupNames(group + [sep]) == GroupNames(group) + [""]
  {
    SplitAtSeparator(group, sep, "", {',', ';'});
    assert group + [sep] + "" == group + [sep];
    CleanEachConcat(Split(group, {',', ';'}), [""]);
    assert Strip("", Whitespace) == "";
    CleanedEmpty(Quotes);
    assert CleanEach([""]) == [CleanField("")] == [""];
  }

  /** A sample-sheet line without the delimiter (a blank line among them)
      lacks a column, whether or not the sheet has a header. */
  lemma OneFieldLineSkipped(line: string, delim: char, header: seq<string>)
    requires forall k :: 0 <= k < |line| ==> line[k] != delim
    ensures ReadSampleLine(line, delim, SheetLayout(header)) == MissingColumn
  {
    SplitWithoutSeparator(line, {delim});
    var layout := SheetLayout(header);
    if layout.hasHeader {
      assert header[layout.sampleColumn] == "sample" && header[layout.groupColumn] == "group";
    }
  }

  // ---------------------------------------------------------------------
  // contrasts
  // ---------------------------------------------------------------------

  /** A requested comparison `[g1, g2]`; the order of the two groups matters. */
  datatype Contrast = Contrast(first: string, second: string)

  /** The two groups of a comparison, in the order they are checked. */
  function Pair(c: Contrast): seq<string>
  {
    [c.first, c.second]
  }

  /** How `contrasts` treats one line: skipped when it has fewer than two
      fields, skipped when one of the first two is empty, or read as a
      comparison of its first two fields. */
  datatype ContrastLine = TooFewFields | EmptyGroup | Compare(contrast: Contrast)

  function ReadContrastLine(line: string, delim: char): ContrastLine
  {
    var fields := CleanEach(Split(line, {delim}));
    if |fields| < 2 then TooFewFields
    else if fields[0] == "" || fields[1] == "" then EmptyGroup
    else Compare(Contrast(fields[0], fields[1]))
  }

  /** Every line of a contrast file, read. */
  function ContrastLines(lines: seq<string>, delim: char): (r: seq<ContrastLine>)
    ensures |r| == |lines|
    ensures forall k :: 0 <= k < |lines| ==> r[k] == ReadContrastLine(lines[k], delim)
  {
    if lines == [] then [] else [ReadContrastLine(lines[0], delim)] + ContrastLines(lines[1..], delim)
  }

  /** The comparisons of the accepted lines, in order. */
  function Compared(ls: seq<ContrastLine>): seq<Contrast>
  {
    if ls == [] then []
    else
      Compared(Init(ls)) +
      match Last(ls)
      case Compare(c) => [c]
      case _ => []
  }

  /** The comparisons of the accepted lines, in file order, repetitions kept. */
  function Requested(lines: seq<string>, delim: char): seq<Contrast>
  {
    Compared(ContrastLines(lines, delim))
  }

  /** The groups of `cs` that are not `defined`, in the order they are
      checked, repetitions kept. */
  function Undefined(cs: seq<Contrast>, defined: set<string>): seq<string>
  {
    if cs == [] then [] else Undefined(Init(cs), defined) + Missing(Pair(Last(cs)), defined)
  }

  /** `contrasts(file, groups, delim)`, where `defined` holds the group names
      of `groups`. Fails, naming every undefined group in order, when an
      accepted line names a group that is not defined; otherwise returns the
      requested comparisons, each once, in the order of first request, and
      every group they name is defined. */
  method Contrasts(lines: seq<string>, defined: set<string>, delim: char) returns (r: Result<seq<Contrast>, Fatal>)
    ensures r.Failure? <==> Undefined(Requested(lines, delim), defined) != []
    ensures r.Failure? ==> r.error == UndefinedGroups(Undefined(Requested(lines, delim), defined))
    ensures r.Success? ==> r.value == Dedup(Requested(lines, delim)) && NoDuplicates(r.value)
    ensures r.Success? ==> forall k :: 0 <= k < |r.value| ==> r.value[k].first in defined && r.value[k].second in defined
  {
    var errors: seq<string> := [];
    var comparisons: seq<Contrast> := [];
    for n := 0 to |lines|
      invariant errors == Undefined(Requested(lines[..n], delim), defined)
      invariant comparisons == Dedup(Requested(lines[..n], delim))
    {
      var line := ParseContrastLine(lines[n], delim);
      ghost var errors0, comparisons0 := errors, comparisons;
      if line.Compare? {
        errors := AppendMissing(errors, Pair(line.contrast), defined);
        if line.contrast !in comparisons {
          comparisons := comparisons + [line.contrast];
        }
      }
      ContrastStep(lines, delim, defined, n, line, errors0, comparisons0, errors, comparisons);
    }
    assert lines[..|lines|] == lines;
    if errors != [] {
      return Failure(UndefinedGroups(errors));
    }
    AllDefined(Requested(lines, delim), defined);
    return Success(comparisons);
  }

  /** The body of the line loop of `contrasts`: split the line on `delim`,
      strip and clean every field, and take the first two. */
  method ParseContrastLine(line: string, delim: char) returns (r: ContrastLine)
    ensures r == ReadContrastLine(line, delim)
    ensures r.TooFewFields? <==> Avoids(line, {delim})
    ensures r.Compare? ==> r.contrast.first != "" && r.contrast.second != ""
    ensures r.Compare? ==> Avoids(r.contrast.first, {delim}) && Avoids(r.contrast.second, {delim})
  {
    ContrastLineShape(line, delim);
    var linelist := CleanEach(Split(line, {delim}));
    if |linelist| < 2 {
      return TooFewFields;
    }
    var g1, g2 := linelist[0], linelist[1];
    if g1 == "" || g2 == "" {
      return EmptyGroup;
    }
    return Compare(Contrast(g1, g2));
  }

  /** A line has too few fields exactly when it holds no delimiter, and a
      comparison names two non-empty groups without the delimiter. */
  lemma ContrastLineShape(line: string, delim: char)
    ensures var r := ReadContrastLine(line, delim);
      && (r.TooFewFields? <==> Avoids(line, {delim}))
      && (r.Compare? ==> r.contrast.first != "" && r.contrast.second != "")
      && (r.Compare? ==> Avoids(r.contrast.first, {delim}) && Avoids(r.contrast.second, {delim}))
  {
    if Avoids(line, {delim}) {
      SplitWithoutSeparator(line, {delim});
    } else {
      SeparatorSplits(line, {delim});
      CleanEachAvoids(line, {delim}, {delim});
    }
  }

  lemma ContrastStep(lines: seq<string>, delim: char, defined: set<string>, n: nat, line: ContrastLine,
                     errors: seq<string>, comparisons: seq<Contrast>, errors': seq<string>, comparisons': seq<Contrast>)
    requires n < |lines| && line == ReadContrastLine(lines[n], delim)
    requires errors == Undefined(Requested(lines[..n], delim), defined)
    requires comparisons == Dedup(Requested(lines[..n], delim))
    requires line.Compare? ==>
      errors' == errors + Missing(Pair(line.contrast), defined) && comparisons' == AddOnce(comparisons, line.contrast)
    requires !line.Compare? ==> errors' == errors && comparisons' == comparisons
    ensures errors' == Undefined(Requested(lines[..n + 1], delim), defined)
    ensures comparisons' == Dedup(Requested(lines[..n + 1], delim))
  {
    RequestedSnoc(lines, delim, n);
    var requested := Requested(lines[..n], delim);
    if line.Compare? {
      var c := line.contrast;
      assert Requested(lines[..n + 1], delim) == requested + [c];
      UndefinedSnoc(requested, c, defined);
      DedupSnoc(requested, c);
    } else {
      assert Requested(lines[..n + 1], delim) == requested + [];
      assert requested + [] == requested;
    }
  }

  lemma RequestedSnoc(lines: seq<string>, delim: char, n: nat)
    requires n < |lines|
    ensures Requested(lines[..n + 1], delim) == Requested(lines[..n], delim) +
      match ReadContrastLine(lines[n], delim)
      case Compare(c) => [c]
      case _ => []
  {
    var ls := ContrastLines(lines[..n + 1], delim);
    assert Init(ls) == ContrastLines(lines[..n], delim);
    assert Last(ls) == ReadContrastLine(lines[n], delim);
  }

  lemma UndefinedSnoc(cs: seq<Contrast>, c: Contrast, defined: set<string>)
    ensures Undefined(cs + [c], defined) == Undefined(cs, defined) + Missing(Pair(c), defined)
  {
    assert Init(cs + [c]) == cs;
  }

  /** When no group is undefined, every comparison names defined groups only. */
  lemma AllDefined(cs: seq<Contrast>, defined: set<string>)
    requires Undefined(cs, defined) == []
    ensures forall c :: c in cs ==> c.first in defined && c.second in defined
  {
    forall c | c in cs
      ensures c.first in defined && c.second in defined
    {
      var k :| 0 <= k < |cs| && cs[k] == c;
      UndefinedIff(cs, defined, c.first);
      UndefinedIff(cs, defined, c.second);
    }
  }

  /** A group is reported as undefined exactly when it is not defined and some
      comparison names it. */
  lemma {:induction false} UndefinedIff(cs: seq<Contrast>, defined: set<string>, g: string)
    ensures g in Undefined(cs, defined) <==>
      g !in defined && exists k :: 0 <= k < |cs| && (cs[k].first == g || cs[k].second == g)
  {
    if cs != [] {
      var init, last := Init(cs), Last(cs);
      UndefinedIff(init, defined, g);
      assert cs == init + [last];
      var m := Missing(Pair(last), defined);
      assert g in m <==> g !in defined && (last.first == g || last.second == g) by {
        assert Pair(last)[0] == last.first && Pair(last)[1] == last.second;
      }
      if g in Undefined(cs, defined) && g !in Undefined(init, defined) {
        assert cs[|cs| - 1] == last;
      }
      if g !in defined && exists k :: 0 <= k < |cs| && (cs[k].first == g || cs[k].second == g) {
        var k :| 0 <= k < |cs| && (cs[k].first == g || cs[k].second == g);
        if k < |init| {
          assert init[k] == cs[k];
        }
      }
    }
  }

  lemma {:induction false} ComparedIff(ls: seq<ContrastLine>, c: Contrast)
    ensures c in Compared(ls) <==> Compare(c) in ls
  {
    if ls != [] {
      ComparedIff(Init(ls), c);
      assert ls == Init(ls) + [Last(ls)];
    }
  }

  /** A comparison is requested exactly when some line reads as it. */
  lemma RequestedIff(lines: seq<string>, delim: char, c: Contrast)
    ensures c in Requested(lines, delim) <==>
      exists k :: 0 <= k < |lines| && ReadContrastLine(lines[k], delim) == Compare(c)
  {
    var ls := ContrastLines(lines, delim);
    ComparedIff(ls, c);
    if Compare(c) in ls {
      var k :| 0 <= k < |ls| && ls[k] == Compare(c);
    }
  }

  /** A contrast line without the delimiter, a blank line among them, has too
      few fields; it is not an empty-group line. */
  lemma OneFieldContrastSkipped(line: string, delim: char)
    requires forall k :: 0 <= k < |line| ==> line[k] != delim
    ensures ReadContrastLine(line, delim) == TooFewFields
  {
    SplitWithoutSeparator(line, {delim});
  }

  /** Columns after the second do not change how a contrast line is read. */
  lemma ExtraColumnsIgnored(line: string, delim: char, rest: string)
    requires |Split(line, {delim})| >= 2
    ensures ReadContrastLine(line + [delim] + rest, delim) == ReadContrastLine(line, delim)
  {
    SplitAtSeparator(line, delim, rest, {delim});
    CleanEachConcat(Split(line, {delim}), Split(rest, {delim}));
  }
}
