/**
 * The text-to-structure heuristics of the drawing-set extractor: slicing the
 * general-notes section out of the OCR text, parsing the lighting fixture
 * schedule table, and counting emergency fixtures in the parsed schedule.
 */
module DataExtractor {
  import opened Strings

  datatype Option<T> = None | Some(value: T)

  // ---------------------------------------------------------------------
  // General notes
  // ---------------------------------------------------------------------

  const NotesTitle := "GENERAL SHEET NOTES"
  const NotesEnd := "KEYNOTES"

  /** A line is a section title when its upper-cased form mentions the title. */
  predicate IsNotesTitle(line: string) {
    Contains(Upper(line), NotesTitle)
  }

  predicate AllOccur(text: string, lines: seq<string>) {
    forall i :: 0 <= i < |lines| ==> Contains(text, lines[i])
  }

  /** The slice appended for one title line: from the first occurrence of the
      line's content up to the next case-sensitive terminator, or to the end. */
  function NotesSlice(text: string, line: string): (r: string)
    requires Contains(text, line)
    ensures var s := Find(text, line, 0);
            0 <= s && s + |r| <= |text| && r == text[s..s + |r|]
    ensures !Contains(r, NotesEnd)
    ensures var s := Find(text, line, 0);
            s + |r| == |text| || OccursAt(text, NotesEnd, s + |r|)
    ensures var s := Find(text, line, 0);
            (forall k :: s <= k ==> !OccursAt(text, NotesEnd, k)) ==> r == text[s..]
  {
    FindContains(text, line);
    var s := Find(text, line, 0);
    var e := Find(text, NotesEnd, s);
    var stop := if e < 0 then |text| else e;
    SliceEnd(text, s, e, stop);
    text[s..stop]
  }

  lemma SliceEnd(text: string, s: nat, e: int, stop: nat)
    requires s <= |text|
    requires e == Find(text, NotesEnd, s)
    requires stop == if e < 0 then |text| else e
    ensures s <= stop <= |text|
    ensures !Contains(text[s..stop], NotesEnd)
    ensures stop == |text| || OccursAt(text, NotesEnd, stop)
    ensures (forall k :: s <= k ==> !OccursAt(text, NotesEnd, k)) ==> stop == |text|
  {
    NoTerminatorInSlice(text, s, stop - s);
  }

  lemma NoTerminatorInSlice(text: string, s: nat, n: nat)
    requires s + n <= |text|
    requires forall k :: s <= k < s + n ==> !OccursAt(text, NotesEnd, k)
    ensures !Contains(text[s..s + n], NotesEnd)
  {
    if Contains(text[s..s + n], NotesEnd) {
      var k :| 0 <= k <= n - |NotesEnd| && OccursAt(text[s..s + n], NotesEnd, k);
      OccursInSlice(text, s, s + n, NotesEnd, k);
      assert false;
    }
  }

  /** A title line found where a `KEYNOTES` begins gives an empty slice. */
  lemma KeynotesTitleEmpty(text: string, line: string)
    requires Contains(text, line)
    requires OccursAt(text, NotesEnd, Find(text, line, 0))
    ensures NotesSlice(text, line) == ""
  {
    FindContains(text, line);
  }

  /** The title test ignores the case of the line. */
  lemma TitleIgnoresCase(line: string)
    ensures IsNotesTitle(Lower(line)) == IsNotesTitle(line)
    ensures IsNotesTitle(Upper(line)) == IsNotesTitle(line)
  {
    CaseFold(line);
    assert Upper(Upper(line)) == Upper(line) by {
      assert forall i :: 0 <= i < |line| ==> Upper(Upper(line))[i] == Upper(line)[i];
    }
  }

  /** The slices collected, in line order, for the title lines among `lines`. */
  function NotesSlices(text: string, lines: seq<string>): seq<string>
    requires AllOccur(text, lines)
    decreases |lines|
  {
    if lines == [] then []
    else
      var line := lines[|lines| - 1];
      NotesSlices(text, lines[..|lines| - 1])
        + (if IsNotesTitle(line) then [NotesSlice(text, line)] else [])
  }

  /** The title lines among `lines`, in order. */
  function TitleLines(lines: seq<string>): (r: seq<string>)
    ensures |r| <= |lines|
    ensures forall i :: 0 <= i < |r| ==> IsNotesTitle(r[i]) && r[i] in lines
    ensures forall i :: 0 <= i < |lines| && IsNotesTitle(lines[i]) ==> lines[i] in r
    decreases |lines|
  {
    if lines == [] then []
    else
      var n := |lines| - 1;
      var line := lines[n];
      assert forall i :: 0 <= i < n ==> lines[..n][i] == lines[i];
      TitleLines(lines[..n]) + (if IsNotesTitle(line) then [line] else [])
  }

  /** Title lines are selected run by run, so they keep line order. */
  lemma {:induction false} TitleLinesAppend(a: seq<string>, b: seq<string>)
    ensures TitleLines(a + b) == TitleLines(a) + TitleLines(b)
    decreases |b|
  {
    if b == [] {
      assert a + b == a;
    } else {
      var init := b[..|b| - 1];
      assert (a + b)[..|a + b| - 1] == a + init;
      assert (a + b)[|a + b| - 1] == b[|b| - 1];
      TitleLinesAppend(a, init);
    }
  }

  /** What `extract_general_notes` returns for `text`. */
  function GeneralNotes(text: string): string {
    SplitPiecesOccur(text, '\n');
    Join(NotesSlices(text, Split(text, '\n')), "\n")
  }

  /** One slice per title line, in line order, each cut for that line. */
  lemma {:induction false} SlicePerTitleLine(text: string, lines: seq<string>)
    requires AllOccur(text, lines)
    ensures |NotesSlices(text, lines)| == |TitleLines(lines)|
    ensures forall k :: 0 <= k < |TitleLines(lines)| ==>
              NotesSlices(text, lines)[k] == NotesSlice(text, TitleLines(lines)[k])
    decreases |lines|
  {
    if lines != [] {
      var init := lines[..|lines| - 1];
      SlicePerTitleLine(text, init);
    }
  }

  /** No title line: no slices. */
  lemma {:induction false} NoTitleNoSlices(text: string, lines: seq<string>)
    requires AllOccur(text, lines)
    requires forall i :: 0 <= i < |lines| ==> !IsNotesTitle(lines[i])
    ensures NotesSlices(text, lines) == []
    decreases |lines|
  {
    if lines != [] {
      NoTitleNoSlices(text, lines[..|lines| - 1]);
    }
  }

  /** Notes are empty when no line of the text mentions the title. */
  lemma NoTitleNoNotes(text: string)
    requires forall i :: 0 <= i < |Split(text, '\n')| ==> !IsNotesTitle(Split(text, '\n')[i])
    ensures GeneralNotes(text) == ""
  {
    SplitPiecesOccur(text, '\n');
    NoTitleNoSlices(text, Split(text, '\n'));
  }

  /** The notes are the slices of the title lines, in order, joined by line breaks. */
  lemma NotesAreTitleSlices(text: string)
    ensures var lines := Split(text, '\n');
            var titles := TitleLines(lines);
            exists slices: seq<string> ::
              && |slices| == |titles|
              && (forall k :: 0 <= k < |titles| ==> Contains(text, titles[k]) && slices[k] == NotesSlice(text, titles[k]))
              && GeneralNotes(text) == Join(slices, "\n")
  {
    var lines := Split(text, '\n');
    SplitPiecesOccur(text, '\n');
    TitlesOccur(text, lines);
    SlicePerTitleLine(text, lines);
    var slices := NotesSlices(text, lines);
    assert GeneralNotes(text) == Join(slices, "\n");
  }

  lemma TitlesOccur(text: string, lines: seq<string>)
    requires AllOccur(text, lines)
    ensures AllOccur(text, TitleLines(lines))
  {
    var titles := TitleLines(lines);
    forall k | 0 <= k < |titles| ensures Contains(text, titles[k]) {
      var j :| 0 <= j < |lines| && lines[j] == titles[k];
    }
  }

  /** `extract_general_notes`. */
  method ExtractGeneralNotes(text: string) returns (notes: string)
    ensures notes == GeneralNotes(text)
    ensures (forall i :: 0 <= i < |Split(text, '\n')| ==> !IsNotesTitle(Split(text, '\n')[i])) ==> notes == ""
  {
    var lines := Split(text, '\n');
    SplitPiecesOccur(text, '\n');
    var slices: seq<string> := [];
    for i := 0 to |lines|
      invariant slices == NotesSlices(text, lines[..i])
    {
      var line := lines[i];
      assert lines[..i + 1][..i] == lines[..i];
      if IsNotesTitle(line) {
        FindContains(text, line);
        var notesStart := Find(text, line, 0);
        var notesEnd := Find(text, NotesEnd, notesStart);
        if notesEnd == -1 {
          notesEnd := |text|;
        }
        slices := slices + [text[notesStart..notesEnd]];
      }
    }
    WholePrefix(lines);
    notes := Join(slices, "\n");
    if forall i :: 0 <= i < |lines| ==> !IsNotesTitle(lines[i]) {
      NoTitleNoNotes(text);
    }
  }

  // ---------------------------------------------------------------------
  // Lighting schedule
  // ---------------------------------------------------------------------

  /** A schedule row: column header to cell text. */
  type Row = map<string, string>

  const TypeMarkKey := "TYPE MARK"
  /** The two accepted spellings of the header label; the second is a common OCR misreading. */
  const HeaderLabel := "TYPE MARK"
  const HeaderLabelMisread := "TYPE MARR"

  /** A header label, matched ignoring case, starts at index `p`. */
  predicate HeaderAt(text: string, p: int) {
    0 <= p && p + 9 <= |text| &&
    (Lower(text[p..p + 9]) == Lower(HeaderLabel) || Lower(text[p..p + 9]) == Lower(HeaderLabelMisread))
  }

  /** The first header label at or after `start`, scanning left to right as
      a regular-expression search does. */
  function SearchHeader(text: string, start: nat): (r: Option<nat>)
    ensures r.Some? ==> start <= r.value && HeaderAt(text, r.value)
    decreases |text| - start
  {
    if start + 9 > |text| then None
    else if HeaderAt(text, start) then Some(start)
    else SearchHeader(text, start + 1)
  }

  /** The search finds the leftmost label, and finds none only when there is none. */
  lemma {:induction false} SearchHeaderLeftmost(text: string, start: nat)
    ensures var r := SearchHeader(text, start);
            r.Some? ==> forall k :: start <= k < r.value ==> !HeaderAt(text, k)
    ensures SearchHeader(text, start).None? <==> forall k :: start <= k ==> !HeaderAt(text, k)
    decreases |text| - start
  {
    var r := SearchHeader(text, start);
    if start + 9 > |text| {
      assert r == None;
      forall k | start <= k ensures !HeaderAt(text, k) {
        assert k + 9 > |text|;
      }
    } else if HeaderAt(text, start) {
      assert r == Some(start);
    } else {
      assert r == SearchHeader(text, start + 1);
      SearchHeaderLeftmost(text, start + 1);
      forall k | start <= k && (r.None? || k < r.value) ensures !HeaderAt(text, k) {
        if k > start {
          assert start + 1 <= k;
        }
      }
    }
  }

  /** Where `.*` stops when started at `from`: the next line break, or the end. */
  function LineEnd(text: string, from: nat): (q: nat)
    requires from <= |text|
    ensures from <= q <= |text|
    ensures q == |text| || text[q] == '\n'
    ensures forall k :: from <= k < q ==> text[k] != '\n'
  {
    var e := Find(text, "\n", from);
    assert forall k :: from <= k < |text| && text[k] == '\n' ==> OccursAt(text, "\n", k) by {
      forall k | from <= k < |text| && text[k] == '\n' ensures OccursAt(text, "\n", k) {
        assert text[k..k + 1] == [text[k]];
      }
    }
    assert e >= 0 ==> text[e..e + 1] == "\n" && text[e] == text[e..e + 1][0];
    if e < 0 then |text| else e
  }

  /** A cleaned cell: non-empty, with no surrounding whitespace. */
  predicate IsToken(t: string) {
    t != [] && !IsSpace(t[0]) && !IsSpace(t[|t| - 1])
  }

  /** `[p.strip() for p in parts if p.strip()]`. */
  function Cleaned(parts: seq<string>): (r: seq<string>)
    ensures |r| <= |parts|
    ensures forall i :: 0 <= i < |r| ==> IsToken(r[i])
    decreases |parts|
  {
    if parts == [] then []
    else
      var t := Strip(parts[0]);
      var rest := Cleaned(parts[1..]);
      if t == [] then rest else [t] + rest
  }

  /** Every part that is not all whitespace is kept, stripped. */
  lemma {:induction false} CleanedComplete(parts: seq<string>, j: nat)
    requires j < |parts| && Strip(parts[j]) != []
    ensures Strip(parts[j]) in Cleaned(parts)
    decreases |parts|
  {
    if j > 0 {
      assert parts[1..][j - 1] == parts[j];
      CleanedComplete(parts[1..], j - 1);
    }
  }

  /** A string is a cleaned field exactly when it is a part, not all
      whitespace, with its surrounding whitespace stripped. */
  lemma CleanedMembers(parts: seq<string>, t: string)
    ensures t in Cleaned(parts) <==>
              t != [] && exists j :: 0 <= j < |parts| && t == Strip(parts[j])
  {
    if t in Cleaned(parts) {
      CleanedFrom(parts);
      var i :| 0 <= i < |Cleaned(parts)| && Cleaned(parts)[i] == t;
    }
    if t != [] && exists j :: 0 <= j < |parts| && t == Strip(parts[j]) {
      var j :| 0 <= j < |parts| && t == Strip(parts[j]);
      CleanedComplete(parts, j);
    }
  }

  /** Parts are cleaned one after another, so fields keep the parts' order. */
  lemma {:induction false} CleanedAppend(a: seq<string>, b: seq<string>)
    ensures Cleaned(a + b) == Cleaned(a) + Cleaned(b)
    decreases |a|
  {
    if a == [] {
      assert a + b == b;
    } else {
      assert (a + b)[0] == a[0];
      assert (a + b)[1..] == a[1..] + b;
      CleanedAppend(a[1..], b);
    }
  }

  /** Every cleaned cell is a part with its surrounding whitespace removed. */
  lemma {:induction false} CleanedFrom(parts: seq<string>)
    ensures forall i :: 0 <= i < |Cleaned(parts)| ==>
              exists j :: 0 <= j < |parts| && Cleaned(parts)[i] == Strip(parts[j])
    decreases |parts|
  {
    if parts != [] {
      var t := Strip(parts[0]);
      var rest := Cleaned(parts[1..]);
      CleanedFrom(parts[1..]);
      var r := Cleaned(parts);
      forall k | 0 <= k < |rest| ensures exists j :: 0 <= j < |parts| && rest[k] == Strip(parts[j]) {
        var j :| 0 <= j < |parts| - 1 && rest[k] == Strip(parts[1..][j]);
        assert parts[1..][j] == parts[j + 1];
      }
      if t != [] {
        assert r == [t] + rest;
        forall i | 0 <= i < |r| ensures exists j :: 0 <= j < |parts| && r[i] == Strip(parts[j]) {
          if i == 0 {
            assert r[0] == Strip(parts[0]);
          } else {
            ConsIndex(t, rest, i - 1);
          }
        }
      } else {
        assert r == rest;
      }
    } else {
      assert Cleaned(parts) == [];
    }
  }

  /** The non-empty trimmed comma-separated fields of one line. */
  function Tokens(line: string): (r: seq<string>)
    ensures forall i :: 0 <= i < |r| ==> IsToken(r[i])
  {
    Cleaned(Split(line, ','))
  }

  /** No field of a line holds a comma. */
  lemma TokensNoComma(line: string)
    ensures forall i :: 0 <= i < |Tokens(line)| ==> ',' !in Tokens(line)[i]
  {
    var pieces := Split(line, ',');
    CleanedFrom(pieces);
    forall i | 0 <= i < |Tokens(line)| ensures ',' !in Tokens(line)[i] {
      var j :| 0 <= j < |pieces| && Tokens(line)[i] == Strip(pieces[j]);
      assert ',' !in pieces[j];
    }
  }

  function ToSet(keys: seq<string>): set<string> {
    set i | 0 <= i < |keys| :: keys[i]
  }

  /** `dict(zip(keys, vals))`: pairs are inserted left to right, so a
      header that repeats keeps the value of its last position. */
  function ZipMap(keys: seq<string>, vals: seq<string>): Row
    requires |keys| == |vals|
    decreases |keys|
  {
    if keys == [] then map[]
    else map[keys[0] := vals[0]] + ZipMap(keys[1..], vals[1..])
  }

  /** The keys of the zipped row are exactly the headers. */
  lemma {:induction false} ZipMapKeys(keys: seq<string>, vals: seq<string>)
    requires |keys| == |vals|
    ensures ZipMap(keys, vals).Keys == ToSet(keys)
    decreases |keys|
  {
    if keys != [] {
      ZipMapKeys(keys[1..], vals[1..]);
      forall key | key in ToSet(keys) ensures key in {keys[0]} + ToSet(keys[1..]) {
        var i :| 0 <= i < |keys| && keys[i] == key;
        if i > 0 { assert keys[1..][i - 1] == key; }
      }
      assert ToSet(keys) == {keys[0]} + ToSet(keys[1..]);
    }
  }

  /** Each value of the zipped row is the value at some position of its header. */
  lemma {:induction false} ZipMapValues(keys: seq<string>, vals: seq<string>, key: string)
    requires |keys| == |vals|
    requires key in ZipMap(keys, vals)
    ensures exists i :: 0 <= i < |keys| && keys[i] == key && ZipMap(keys, vals)[key] == vals[i]
    decreases |keys|
  {
    var rest := ZipMap(keys[1..], vals[1..]);
    if key in rest {
      ZipMapValues(keys[1..], vals[1..], key);
      var i :| 0 <= i < |keys| - 1 && keys[1..][i] == key && rest[key] == vals[1..][i];
      assert keys[i + 1] == key && vals[i + 1] == vals[1..][i];
    } else {
      assert keys[0] == key;
    }
  }

  /** A header's value comes from its last position: a later duplicate header overwrites. */
  lemma {:induction false} ZipMapLastWins(keys: seq<string>, vals: seq<string>, i: nat)
    requires |keys| == |vals| && i < |keys|
    requires forall j :: i < j < |keys| ==> keys[j] != keys[i]
    ensures keys[i] in ZipMap(keys, vals) && ZipMap(keys, vals)[keys[i]] == vals[i]
    decreases |keys|
  {
    if i > 0 {
      assert forall j :: i - 1 < j < |keys| - 1 ==> keys[1..][j] == keys[j + 1];
      ZipMapLastWins(keys[1..], vals[1..], i - 1);
    } else {
      ZipMapKeys(keys[1..], vals[1..]);
      forall j | 0 <= j < |keys| - 1 ensures keys[1..][j] != keys[0] {
        assert keys[1..][j] == keys[j + 1];
      }
      assert keys[0] !in ToSet(keys[1..]);
    }
  }

  /** The row built from a line with enough fields: its first fields paired
      with the headers, extra fields ignored. */
  function RowOf(headers: seq<string>, parts: seq<string>): Row
    requires |parts| >= |headers|
  {
    ZipMap(headers, parts[..|headers|])
  }

  /** The cleaned fields of each line. */
  function Fields(lines: seq<string>): (r: seq<seq<string>>)
    ensures |r| == |lines|
    ensures forall i, k :: 0 <= i < |r| && 0 <= k < |r[i]| ==> IsToken(r[i][k])
  {
    seq(|lines|, i requires 0 <= i < |lines| => Tokens(lines[i]))
  }

  /** Every row built from a line, given as its fields, that has at least as
      many fields as there are headers, in line order. */
  function Table(fields: seq<seq<string>>, headers: seq<string>): (r: seq<Row>)
    ensures |r| <= |fields|
    decreases |fields|
  {
    if fields == [] then []
    else
      var parts := fields[|fields| - 1];
      Table(fields[..|fields| - 1], headers)
        + (if |parts| >= |headers| then [RowOf(headers, parts)] else [])
  }

  /** One loop step: the rows of one more line. */
  lemma TableStep(fields: seq<seq<string>>, i: nat, headers: seq<string>)
    requires i < |fields|
    ensures var parts := fields[i];
            Table(fields[..i + 1], headers)
              == Table(fields[..i], headers) + (if |parts| >= |headers| then [RowOf(headers, parts)] else [])
  {
    assert fields[..i + 1][..i] == fields[..i];
  }

  /** A built row has exactly the headers as keys and a cleaned field as each value. */
  lemma RowOfShape(headers: seq<string>, parts: seq<string>)
    requires |parts| >= |headers|
    requires forall i :: 0 <= i < |parts| ==> IsToken(parts[i])
    ensures RowOf(headers, parts).Keys == ToSet(headers)
    ensures forall key :: key in RowOf(headers, parts) ==> IsToken(RowOf(headers, parts)[key])
  {
    var vals := parts[..|headers|];
    ZipMapKeys(headers, vals);
    forall key | key in ZipMap(headers, vals) ensures IsToken(ZipMap(headers, vals)[key]) {
      ZipMapValues(headers, vals, key);
    }
  }

  /** Every row of the table has exactly the headers as keys and a cleaned
      field as each value. */
  lemma {:induction false} TableShape(fields: seq<seq<string>>, headers: seq<string>)
    requires forall i, k :: 0 <= i < |fields| && 0 <= k < |fields[i]| ==> IsToken(fields[i][k])
    ensures forall i :: 0 <= i < |Table(fields, headers)| ==> Table(fields, headers)[i].Keys == ToSet(headers)
    ensures forall i, key :: 0 <= i < |Table(fields, headers)| && key in Table(fields, headers)[i] ==>
              IsToken(Table(fields, headers)[i][key])
    decreases |fields|
  {
    if fields != [] {
      var init := fields[..|fields| - 1];
      assert forall i :: 0 <= i < |init| ==> init[i] == fields[i];
      TableShape(init, headers);
      var parts := fields[|fields| - 1];
      if |parts| >= |headers| {
        RowOfShape(headers, parts);
      }
    }
  }

  /** A row whose `TYPE MARK` cell is present and non-empty. */
  predicate HasTypeMark(row: Row) {
    TypeMarkKey in row && row[TypeMarkKey] != ""
  }

  /** `[row for row in rows if row.get('TYPE MARK')]`. */
  function KeepTyped(rows: seq<Row>): (r: seq<Row>)
    ensures |r| <= |rows|
    ensures forall i :: 0 <= i < |r| ==> HasTypeMark(r[i]) && r[i] in rows
    ensures forall i :: 0 <= i < |rows| && HasTypeMark(rows[i]) ==> rows[i] in r
    decreases |rows|
  {
    if rows == [] then []
    else
      var row := rows[|rows| - 1];
      var init := rows[..|rows| - 1];
      var rest := KeepTyped(init);
      assert forall i :: 0 <= i < |init| ==> init[i] == rows[i];
      rest + (if HasTypeMark(row) then [row] else [])
  }

  /** The header columns, given the position of the header label. */
  function Headers(text: string, p: nat): seq<string>
    requires p + 9 <= |text|
  {
    Tokens(text[p..LineEnd(text, p + 9)])
  }

  /** The lines after the header line, with the surrounding whitespace of that
      remainder stripped first. */
  function BodyLines(text: string, p: nat): seq<string>
    requires p + 9 <= |text|
  {
    Split(Strip(text[LineEnd(text, p + 9)..]), '\n')
  }

  /** What `extract_lighting_schedule` returns for `text`. */
  function Schedule(text: string): seq<Row> {
    match SearchHeader(text, 0)
    case None => []
    case Some(p) => KeepTyped(Table(Fields(BodyLines(text, p)), Headers(text, p)))
  }

  /** The nine characters of a matched label hold no comma and neither start
      nor end with whitespace. */
  lemma LabelChars(w: string)
    requires |w| == 9
    requires Lower(w) == Lower(HeaderLabel) || Lower(w) == Lower(HeaderLabelMisread)
    ensures ',' !in w && !IsSpace(w[0]) && !IsSpace(w[8])
  {
    var lbl := if Lower(w) == Lower(HeaderLabel) then HeaderLabel else HeaderLabelMisread;
    forall k | 0 <= k < 9 ensures w[k] != ',' {
      assert LowerChar(w[k]) == Lower(lbl)[k] == LowerChar(lbl[k]);
    }
    assert LowerChar(w[0]) == 't';
    assert LowerChar(w[8]) == 'k' || LowerChar(w[8]) == 'r';
  }

  /** Trimming a string that starts and ends its first `n` characters with
      non-whitespace keeps those characters. */
  lemma StripKeepsPrefix(s: string, n: nat)
    requires 0 < n <= |s| && !IsSpace(s[0]) && !IsSpace(s[n - 1])
    ensures |Strip(s)| >= n && Strip(s)[..n] == s[..n]
  {
    assert SkipSpace(s, 0) == 0;
    var b := SkipSpaceBack(s, 0, |s|);
    assert Strip(s) == s[..b];
    assert !IsSpace(s[n - 1]);
  }

  /** The header row: at least one column, and the first column name starts
      with the matched label itself, so nothing before the match on that line
      is part of any header. */
  lemma HeaderRow(text: string, p: nat)
    requires SearchHeader(text, 0) == Some(p)
    ensures |Headers(text, p)| >= 1
    ensures |Headers(text, p)[0]| >= 9 && Headers(text, p)[0][..9] == text[p..p + 9]
  {
    var q := LineEnd(text, p + 9);
    var h := text[p..q];
    var w := text[p..p + 9];
    forall k | 0 <= k < 9 ensures h[k] == w[k] {
      assert h[k] == text[p + k] && w[k] == text[p + k];
    }
    assert h[..9] == w;
    LabelChars(w);
    FirstTokenKeepsPrefix(h, 9);
  }

  /** When the first `n` characters of a line hold no comma and begin and end
      with non-whitespace, the line's first token begins with them. */
  lemma FirstTokenKeepsPrefix(h: string, n: nat)
    requires 0 < n <= |h| && ',' !in h[..n] && !IsSpace(h[0]) && !IsSpace(h[n - 1])
    ensures |Tokens(h)| >= 1 && |Tokens(h)[0]| >= n && Tokens(h)[0][..n] == h[..n]
  {
    assert forall k :: 0 <= k < n ==> h[k] != ',' by {
      forall k | 0 <= k < n ensures h[k] != ',' {
        assert h[k] == h[..n][k];
      }
    }
    var pieces := Split(h, ',');
    var first := pieces[0];
    assert |first| >= n;
    forall k | 0 <= k < n ensures first[k] == h[k] {
      assert first[k] == h[..|first|][k];
    }
    assert first[..n] == h[..n];
    StripKeepsPrefix(first, n);
    var t := Strip(first);
    assert Cleaned(pieces) == [t] + Cleaned(pieces[1..]);
  }

  /** `row` is the row built from line `j`, which has enough fields. */
  predicate BuiltAt(fields: seq<seq<string>>, headers: seq<string>, j: int, row: Row) {
    0 <= j < |fields| && |fields[j]| >= |headers| && row == RowOf(headers, fields[j])
  }

  /** Every row of the table is built from some line. */
  lemma {:induction false} TableFrom(fields: seq<seq<string>>, headers: seq<string>, row: Row)
    requires row in Table(fields, headers)
    ensures exists j :: BuiltAt(fields, headers, j, row)
    decreases |fields|
  {
    var n := |fields| - 1;
    var init := fields[..n];
    TableStep(fields, n, headers);
    WholePrefix(fields);
    if row in Table(init, headers) {
      TableFrom(init, headers, row);
      var j :| BuiltAt(init, headers, j, row);
      assert init[j] == fields[j];
      assert BuiltAt(fields, headers, j, row);
    } else {
      assert BuiltAt(fields, headers, n, row);
    }
  }

  /** Every line with enough fields contributes its row to the table. */
  lemma {:induction false} TableHas(fields: seq<seq<string>>, headers: seq<string>, j: nat, row: Row)
    requires BuiltAt(fields, headers, j, row)
    ensures row in Table(fields, headers)
    decreases |fields|
  {
    var n := |fields| - 1;
    var init := fields[..n];
    TableStep(fields, n, headers);
    WholePrefix(fields);
    if j < n {
      assert init[j] == fields[j];
      TableHas(init, headers, j, row);
    }
  }

  /** A row is in the table exactly when it is built from some line with
      enough fields. */
  lemma TableMembers(fields: seq<seq<string>>, headers: seq<string>, row: Row)
    ensures row in Table(fields, headers) <==> exists j :: BuiltAt(fields, headers, j, row)
  {
    if row in Table(fields, headers) {
      TableFrom(fields, headers, row);
    }
    if exists j :: BuiltAt(fields, headers, j, row) {
      var j :| BuiltAt(fields, headers, j, row);
      TableHas(fields, headers, j, row);
    }
  }

  /** Rows come out in line order: the table of two runs of lines is the two tables in turn. */
  lemma {:induction false} TableAppend(a: seq<seq<string>>, b: seq<seq<string>>, headers: seq<string>)
    ensures Table(a + b, headers) == Table(a, headers) + Table(b, headers)
    decreases |b|
  {
    if b == [] {
      assert a + b == a;
    } else {
      var init := b[..|b| - 1];
      assert (a + b)[..|a + b| - 1] == a + init;
      assert (a + b)[|a + b| - 1] == b[|b| - 1];
      TableAppend(a, init, headers);
    }
  }

  /** The filter keeps its input's order. */
  lemma {:induction false} KeepTypedAppend(a: seq<Row>, b: seq<Row>)
    ensures KeepTyped(a + b) == KeepTyped(a) + KeepTyped(b)
    decreases |b|
  {
    if b == [] {
      assert a + b == a;
    } else {
      var init := b[..|b| - 1];
      assert (a + b)[..|a + b| - 1] == a + init;
      assert (a + b)[|a + b| - 1] == b[|b| - 1];
      KeepTypedAppend(a, init);
    }
  }

  lemma {:induction false} KeepTypedAll(rows: seq<Row>)
    requires forall i :: 0 <= i < |rows| ==> HasTypeMark(rows[i])
    ensures KeepTyped(rows) == rows
    decreases |rows|
  {
    if rows != [] {
      var init := rows[..|rows| - 1];
      KeepTypedAll(init);
      assert init + [rows[|rows| - 1]] == rows;
    }
  }

  lemma {:induction false} KeepTypedNone(rows: seq<Row>)
    requires forall i :: 0 <= i < |rows| ==> !HasTypeMark(rows[i])
    ensures KeepTyped(rows) == []
    decreases |rows|
  {
    if rows != [] {
      KeepTypedNone(rows[..|rows| - 1]);
    }
  }

  /** The `TYPE MARK` filter is all or nothing: with a header spelled exactly
      `TYPE MARK` every built row survives; with none (a lower-case or
      misread label, say) the schedule is empty. */
  lemma TypeMarkFilter(text: string, p: nat)
    requires SearchHeader(text, 0) == Some(p)
    ensures TypeMarkKey in Headers(text, p) ==> Schedule(text) == Table(Fields(BodyLines(text, p)), Headers(text, p))
    ensures TypeMarkKey !in Headers(text, p) ==> Schedule(text) == []
  {
    var headers := Headers(text, p);
    var fields := Fields(BodyLines(text, p));
    var rows := Table(fields, headers);
    TableShape(fields, headers);
    if TypeMarkKey in headers {
      forall i | 0 <= i < |rows| ensures HasTypeMark(rows[i]) {
        var j :| 0 <= j < |headers| && headers[j] == TypeMarkKey;
        assert TypeMarkKey in ToSet(headers);
        assert IsToken(rows[i][TypeMarkKey]);
      }
      KeepTypedAll(rows);
    } else {
      forall i | 0 <= i < |rows| ensures !HasTypeMark(rows[i]) {
        assert TypeMarkKey !in ToSet(headers);
      }
      KeepTypedNone(rows);
    }
  }

  /** A row is in the schedule exactly when it has a `TYPE MARK` value and is
      built from a body line with at least as many fields as there are headers. */
  lemma ScheduleMembers(text: string, p: nat, row: Row)
    requires SearchHeader(text, 0) == Some(p)
    ensures var lines := BodyLines(text, p);
            var headers := Headers(text, p);
            row in Schedule(text) <==>
              HasTypeMark(row) && exists j :: BuiltAt(Fields(lines), headers, j, row)
  {
    var lines := BodyLines(text, p);
    var headers := Headers(text, p);
    var rows := Table(Fields(lines), headers);
    TableMembers(Fields(lines), headers, row);
    if row in rows && HasTypeMark(row) {
      var i :| 0 <= i < |rows| && rows[i] == row;
    }
  }

  /** `extract_lighting_schedule`. */
  method ExtractLightingSchedule(text: string) returns (schedule: seq<Row>)
    ensures schedule == Schedule(text)
    ensures SearchHeader(text, 0).None? ==> schedule == []
    ensures forall i :: 0 <= i < |schedule| ==> HasTypeMark(schedule[i])
  {
    var m := SearchHeader(text, 0);
    if m.None? {
      return [];
    }
    var p := m.value;
    var matchEnd := LineEnd(text, p + 9);
    var headersLine := text[p..matchEnd];
    var textAfterHeaders := text[matchEnd..];
    var lines := Split(Strip(textAfterHeaders), '\n');
    var headers := Tokens(headersLine);
    var numCols := |headers|;
    var rows: seq<Row> := [];
    for i := 0 to |lines|
      invariant rows == Table(Fields(lines)[..i], headers)
    {
      var parts := Tokens(lines[i]);
      TableStep(Fields(lines), i, headers);
      if |parts| >= numCols {
        rows := rows + [ZipMap(headers, parts[..numCols])];
      }
    }
    WholePrefix(Fields(lines));
    assert lines == BodyLines(text, p) && headers == Headers(text, p);
    schedule := KeepTyped(rows);
  }

  // ---------------------------------------------------------------------
  // Emergency fixture count
  // ---------------------------------------------------------------------

  const DescriptionKey := "DESCRIPTION"
  /** The description phrase that marks a 2x4 recessed fixture. */
  const RecessedPhrase := "2' x 4' recessed"
  const WallpackMark := "W"

  /** `row.get(key, '')`. */
  function Get(row: Row, key: string): string {
    if key in row then row[key] else ""
  }

  /** The trimmed type mark of a row. */
  function MarkOf(row: Row): string {
    Strip(Get(row, TypeMarkKey))
  }

  /** The lower-cased description of a row. */
  function DescriptionOf(row: Row): string {
    Lower(Get(row, DescriptionKey))
  }

  /** `mark.endswith('E')`, case-sensitive. */
  predicate EndsWithE(mark: string) {
    mark != [] && mark[|mark| - 1] == 'E'
  }

  /** The type mark ends with an upper-case `E`. */
  predicate IsEmergency(row: Row) {
    EndsWithE(MarkOf(row))
  }

  predicate IsRecessed2x4(row: Row) {
    IsEmergency(row) && Contains(DescriptionOf(row), RecessedPhrase)
  }

  predicate IsOtherEmergency(row: Row) {
    IsEmergency(row) && !Contains(DescriptionOf(row), RecessedPhrase)
  }

  predicate IsWallpack(row: Row) {
    MarkOf(row) == WallpackMark
  }

  /** The four entries of the returned counts dictionary. */
  datatype EmergencyCounts = EmergencyCounts(total: nat, recessed2x4: nat, wallpack: nat, other: seq<string>)

  /** The number of rows satisfying `p`. */
  function Count(rows: seq<Row>, p: Row -> bool): (n: nat)
    ensures n <= |rows|
    decreases |rows|
  {
    if rows == [] then 0
    else Count(rows[..|rows| - 1], p) + (if p(rows[|rows| - 1]) then 1 else 0)
  }

  /** The marks of the emergency rows that are not 2x4 recessed, in row order. */
  function OtherMarks(rows: seq<Row>): (r: seq<string>)
    ensures |r| <= |rows|
    decreases |rows|
  {
    if rows == [] then []
    else
      var row := rows[|rows| - 1];
      var rest := OtherMarks(rows[..|rows| - 1]);
      if IsOtherEmergency(row) then rest + [MarkOf(row)] else rest
  }

  /** Every mark on the other-fixtures list ends in `E`. */
  lemma {:induction false} OtherMarksEndInE(rows: seq<Row>)
    ensures forall i :: 0 <= i < |OtherMarks(rows)| ==> EndsWithE(OtherMarks(rows)[i])
    decreases |rows|
  {
    if rows != [] {
      var row := rows[|rows| - 1];
      var rest := OtherMarks(rows[..|rows| - 1]);
      OtherMarksEndInE(rows[..|rows| - 1]);
      if IsOtherEmergency(row) {
        var m := MarkOf(row);
        assert OtherMarks(rows) == rest + [m];
        assert EndsWithE(m);
        forall i | 0 <= i < |rest| + 1 ensures EndsWithE((rest + [m])[i]) {
          if i < |rest| {
            assert (rest + [m])[i] == rest[i];
          }
        }
      } else {
        assert OtherMarks(rows) == rest;
      }
    }
  }

  lemma CountStep(rows: seq<Row>, i: nat, p: Row -> bool)
    requires i < |rows|
    ensures Count(rows[..i + 1], p) == Count(rows[..i], p) + (if p(rows[i]) then 1 else 0)
  {
    assert rows[..i + 1][..i] == rows[..i];
  }

  /** The counters after the first `i` rows of the schedule. */
  predicate Tallied(rows: seq<Row>, i: nat, total: int, recessed: int, wallpack: int, other: seq<string>)
    requires i <= |rows|
  {
    && total == Count(rows[..i], IsEmergency) + Count(rows[..i], IsWallpack)
    && recessed == Count(rows[..i], IsRecessed2x4)
    && wallpack == Count(rows[..i], IsWallpack)
    && other == OtherMarks(rows[..i])
  }

  /** One step of the counting loop: row `i` adds one to the total for an
      `E` mark and one for a `W` mark, one to the recessed count or its mark
      to the other list, and one to the wall-packs for a `W` mark. */
  lemma TallyNext(rows: seq<Row>, i: nat, total: int, recessed: int, wallpack: int, other: seq<string>)
    requires i < |rows| && Tallied(rows, i, total, recessed, wallpack, other)
    ensures var mark := MarkOf(rows[i]);
            var e := EndsWithE(mark);
            var rec := Contains(DescriptionOf(rows[i]), RecessedPhrase);
            var w := mark == WallpackMark;
            Tallied(rows, i + 1,
                    total + (if e then 1 else 0) + (if w then 1 else 0),
                    recessed + (if e && rec then 1 else 0),
                    wallpack + (if w then 1 else 0),
                    other + (if e && !rec then [mark] else []))
  {
    assert rows[..i + 1][..i] == rows[..i];
    CountStep(rows, i, IsEmergency);
    CountStep(rows, i, IsWallpack);
    CountStep(rows, i, IsRecessed2x4);
  }

  /** Each emergency row either counts as 2x4 recessed or lands in the other list. */
  lemma {:induction false} EmergencySplit(rows: seq<Row>)
    ensures Count(rows, IsEmergency) == Count(rows, IsRecessed2x4) + |OtherMarks(rows)|
    ensures |OtherMarks(rows)| == Count(rows, IsOtherEmergency)
    decreases |rows|
  {
    if rows != [] {
      EmergencySplit(rows[..|rows| - 1]);
    }
  }

  /** A mark equal to `W` does not end in `E`, so no row is counted twice and
      the total never exceeds the number of rows. */
  lemma {:induction false} NoDoubleCount(rows: seq<Row>)
    ensures Count(rows, IsEmergency) + Count(rows, IsWallpack) <= |rows|
    decreases |rows|
  {
    if rows != [] {
      var row := rows[|rows| - 1];
      NoDoubleCount(rows[..|rows| - 1]);
      if IsWallpack(row) {
        assert MarkOf(row)[0] == 'W';
      }
    }
  }

  /** Counting is additive over consecutive runs of rows. */
  lemma {:induction false} CountAppend(a: seq<Row>, b: seq<Row>, p: Row -> bool)
    ensures Count(a + b, p) == Count(a, p) + Count(b, p)
    decreases |b|
  {
    if b == [] {
      assert a + b == a;
    } else {
      var init := b[..|b| - 1];
      assert (a + b)[..|a + b| - 1] == a + init;
      assert (a + b)[|a + b| - 1] == b[|b| - 1];
      CountAppend(a, init, p);
    }
  }

  /** The other-fixtures list keeps schedule order. */
  lemma {:induction false} OtherMarksAppend(a: seq<Row>, b: seq<Row>)
    ensures OtherMarks(a + b) == OtherMarks(a) + OtherMarks(b)
    decreases |b|
  {
    if b == [] {
      assert a + b == a;
    } else {
      var init := b[..|b| - 1];
      assert (a + b)[..|a + b| - 1] == a + init;
      assert (a + b)[|a + b| - 1] == b[|b| - 1];
      OtherMarksAppend(a, init);
    }
  }

  /** A single row whose trimmed mark is `W`: one wall-pack, nothing else. */
  lemma WallpackRow(row: Row)
    requires MarkOf(row) == WallpackMark
    ensures Count([row], IsWallpack) == 1 && Count([row], IsEmergency) == 0
    ensures Count([row], IsRecessed2x4) == 0 && OtherMarks([row]) == []
  {
    assert [row][..0] == [];
  }

  /** `count_emergency_lights_from_schedule`. */
  method CountEmergencyLights(schedule: seq<Row>) returns (counts: EmergencyCounts)
    ensures counts.total == Count(schedule, IsEmergency) + Count(schedule, IsWallpack)
    ensures counts.recessed2x4 == Count(schedule, IsRecessed2x4)
    ensures counts.wallpack == Count(schedule, IsWallpack)
    ensures counts.other == OtherMarks(schedule)
    ensures counts.total == counts.recessed2x4 + counts.wallpack + |counts.other|
    ensures counts.total <= |schedule|
    ensures schedule == [] ==> counts == EmergencyCounts(0, 0, 0, [])
    ensures forall i :: 0 <= i < |counts.other| ==> EndsWithE(counts.other[i])
  {
    var total, recessed, wallpack := 0, 0, 0;
    var other: seq<string> := [];
    for i := 0 to |schedule|
      invariant Tallied(schedule, i, total, recessed, wallpack, other)
    {
      var item := schedule[i];
      var typeMark := MarkOf(item);
      var description := DescriptionOf(item);
      TallyNext(schedule, i, total, recessed, wallpack, other);
      ghost var e, rec := EndsWithE(typeMark), Contains(description, RecessedPhrase);
      ghost var o, r, w, ot := total, recessed, wallpack, other;
      if typeMark != [] && typeMark[|typeMark| - 1] == 'E' {
        total := total + 1;
        if Contains(description, RecessedPhrase) {
          recessed := recessed + 1;
        } else {
          other := other + [typeMark];
        }
      }
      if typeMark == WallpackMark {
        wallpack := wallpack + 1;
        total := total + 1;
      }
      assert total == o + (if e then 1 else 0) + (if typeMark == WallpackMark then 1 else 0);
      assert recessed == r + (if e && rec then 1 else 0);
      assert wallpack == w + (if typeMark == WallpackMark then 1 else 0);
      assert other == ot + (if e && !rec then [typeMark] else []);
    }
    WholePrefix(schedule);
    EmergencySplit(schedule);
    NoDoubleCount(schedule);
    OtherMarksEndInE(schedule);
    counts := EmergencyCounts(total, recessed, wallpack, other);
  }
}
