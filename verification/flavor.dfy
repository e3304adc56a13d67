/**
 * Pokédex flavour texts (`get_flavor_texts`).
 *
 * The flavour table is given already decoded: one section per generation
 * heading, each holding the tables under it; a table is a list of rows; a
 * row either carries a version table (its links, each with a `title` and a
 * text) together with the contents of its text cell, or it carries none.
 */
module Flavor {
  import opened Wrappers
  import opened Text

  /** One child of the text cell: a `small` element with its strings, or any other node with its `.string`. */
  datatype Content = Small(strings: seq<string>) | Piece(str: Option<string>)

  /** A link of a version table: its `title` attribute and its text. */
  datatype VersionLink = VersionLink(title: Option<string>, linkText: string)

  /** A table row: the version table it holds, if any, and the contents of its text cell. */
  datatype FlavorRow = FlavorRow(versionTable: Option<seq<VersionLink>>, textCell: seq<Content>)

  /** A generation heading with the tables that follow it. */
  datatype GenerationSection = GenerationSection(heading: string, tables: seq<seq<FlavorRow>>)

  datatype Version = Version(name: string, group: Option<string>, text: string)

  datatype Generation = Generation(name: string, versions: seq<Version>)

  // ---------------------------------------------------------------------------
  // Text assembly

  /** The piece one child contributes: a `small` element's stripped strings and a newline, else the stripped `.string`. */
  function ContentPart(c: Content): string {
    match c
    case Small(strings) => Flatten(StripEach(strings)) + "\n"
    case Piece(str) => if str.Some? then Strip(str.value) else ""
  }

  /** The pieces of all children, in order. */
  function Parts(contents: seq<Content>): (parts: seq<string>)
    ensures |parts| == |contents|
  {
    seq(|contents|, k requires 0 <= k < |contents| => ContentPart(contents[k]))
  }

  /** The text of a row: the joined pieces, stripped, with every space removed. */
  function CellText(contents: seq<Content>): (text: string)
    ensures ' ' !in text
  {
    RemoveChar(Strip(Flatten(Parts(contents))), ' ')
  }

  /** Removing a character other than the last one keeps the last one. */
  lemma {:induction false} RemoveCharLast(s: string, c: char)
    requires s != [] && s[|s| - 1] != c
    ensures var r := RemoveChar(s, c); r != [] && r[|r| - 1] == s[|s| - 1]
    decreases |s|
  {
    if |s| > 1 {
      RemoveCharLast(s[1..], c);
    }
  }

  /** A row's text is empty or starts and ends with a character other than whitespace. */
  lemma CellTextTrimmed(contents: seq<Content>)
    ensures var t := CellText(contents); t == [] || (!IsSpace(t[0]) && !IsSpace(t[|t| - 1]))
  {
    var s := Strip(Flatten(Parts(contents)));
    StripEnds(Flatten(Parts(contents)));
    if s != [] {
      RemoveCharLast(s, ' ');
    }
  }

  /** Builds a row's text from its text cell, piece by piece. */
  method AssembleText(contents: seq<Content>) returns (text: string)
    ensures text == CellText(contents)
  {
    var textParts: seq<string> := [];
    for k := 0 to |contents|
      invariant textParts == Parts(contents[..k])
    {
      var content := contents[k];
      if content.Small? {
        textParts := textParts + [Flatten(StripEach(content.strings)) + "\n"];
      } else {
        textParts := textParts + [if content.str.Some? then Strip(content.str.value) else ""];
      }
    }
    assert contents[..|contents|] == contents;
    text := RemoveChar(Strip(Flatten(textParts)), ' ');
  }

  // ---------------------------------------------------------------------------
  // Candidates and first-occurrence deduplication

  /** A text that still holds wiki template markers. */
  predicate Templated(text: string) {
    Contains(text, "{{{") || Contains(text, "}}}")
  }

  predicate Clean(v: Version) {
    !Templated(v.text)
  }

  /** One candidate per link of a version table, all with the row's text. */
  function LinkVersions(links: seq<VersionLink>, text: string): (vs: seq<Version>)
    ensures |vs| == |links|
  {
    seq(|links|, k requires 0 <= k < |links| => Version(Strip(links[k].linkText), links[k].title, text))
  }

  function RowCandidates(row: FlavorRow): seq<Version> {
    match row.versionTable
    case None => []
    case Some(links) => LinkVersions(links, CellText(row.textCell))
  }

  /** Every candidate version of the rows, row by row in document order. */
  function Candidates(rows: seq<FlavorRow>): seq<Version> {
    Flatten(MapSeq(RowCandidates, rows))
  }

  predicate HasName(vs: seq<Version>, name: string) {
    exists k :: 0 <= k < |vs| && vs[k].name == name
  }

  /** Appends `v` when its text is clean and its name is new. */
  function Add(vs: seq<Version>, v: Version): seq<Version> {
    if Clean(v) && !HasName(vs, v.name) then vs + [v] else vs
  }

  /** Adds the candidates `cs` one after the other to `vs`. */
  function AddAll(vs: seq<Version>, cs: seq<Version>): seq<Version> {
    if cs == [] then vs else Add(AddAll(vs, cs[..|cs| - 1]), cs[|cs| - 1])
  }

  /** The versions kept for a generation. */
  function Dedup(cs: seq<Version>): seq<Version> {
    AddAll([], cs)
  }

  predicate DistinctNames(vs: seq<Version>) {
    forall i, j :: 0 <= i < j < |vs| ==> vs[i].name != vs[j].name
  }

  /** `cs[i]` is clean and no clean candidate before it has its name. */
  predicate FirstCleanAt(cs: seq<Version>, i: int)
    requires 0 <= i < |cs|
  {
    Clean(cs[i]) && forall j :: 0 <= j < i && Clean(cs[j]) ==> cs[j].name != cs[i].name
  }

  /** `xs` is `ys` with some elements left out, the rest in their order. */
  predicate Subsequence<T(==)>(xs: seq<T>, ys: seq<T>)
    decreases |ys|
  {
    if xs == [] then true
    else if ys == [] then false
    else (xs[|xs| - 1] == ys[|ys| - 1] && Subsequence(xs[..|xs| - 1], ys[..|ys| - 1]))
         || Subsequence(xs, ys[..|ys| - 1])
  }

  lemma DedupStep(cs: seq<Version>, c: Version)
    ensures Dedup(cs + [c]) == Add(Dedup(cs), c)
  {
    assert (cs + [c])[..|cs|] == cs;
  }

  /** Adding candidates in two batches is adding them all at once. */
  lemma {:induction false} AddAllAppend(vs: seq<Version>, xs: seq<Version>, ys: seq<Version>)
    ensures AddAll(vs, xs + ys) == AddAll(AddAll(vs, xs), ys)
    decreases |ys|
  {
    if ys == [] {
      assert xs + ys == xs;
    } else {
      var init := ys[..|ys| - 1];
      AddAllAppend(vs, xs, init);
      assert (xs + ys)[..|xs + ys| - 1] == xs + init;
    }
  }

  /** No two kept versions share a name. */
  lemma {:induction false} DedupDistinct(cs: seq<Version>)
    ensures DistinctNames(Dedup(cs))
    decreases |cs|
  {
    if cs != [] {
      var init, c := cs[..|cs| - 1], cs[|cs| - 1];
      assert cs == init + [c];
      DedupStep(init, c);
      DedupDistinct(init);
    }
  }

  /** A name is kept exactly when some clean candidate carries it. */
  lemma {:induction false} DedupNames(cs: seq<Version>, name: string)
    ensures HasName(Dedup(cs), name) <==> exists i :: 0 <= i < |cs| && Clean(cs[i]) && cs[i].name == name
    decreases |cs|
  {
    if cs != [] {
      var init, c := cs[..|cs| - 1], cs[|cs| - 1];
      assert cs == init + [c];
      DedupStep(init, c);
      DedupNames(init, name);
      var d := Dedup(init);
      if HasName(Dedup(cs), name) {
        var k :| 0 <= k < |Dedup(cs)| && Dedup(cs)[k].name == name;
        if k < |d| {
          assert d[k].name == name;
          var i :| 0 <= i < |init| && Clean(init[i]) && init[i].name == name;
          assert cs[i] == init[i];
        } else {
          assert Clean(cs[|cs| - 1]) && cs[|cs| - 1].name == name;
        }
      }
      if exists i :: 0 <= i < |cs| && Clean(cs[i]) && cs[i].name == name {
        var i :| 0 <= i < |cs| && Clean(cs[i]) && cs[i].name == name;
        if i < |init| {
          assert init[i] == cs[i];
          var k :| 0 <= k < |d| && d[k].name == name;
          assert Dedup(cs)[k] == d[k];
        } else if !HasName(d, name) {
          assert Dedup(cs)[|d|] == c;
        } else {
          var k :| 0 <= k < |d| && d[k].name == name;
          assert Dedup(cs)[k] == d[k];
        }
      }
    }
  }

  /**
   * The kept versions are exactly the first clean occurrence of each name: a
   * templated occurrence neither is kept nor hides a later clean one.
   */
  lemma {:induction false} DedupFirstWins(cs: seq<Version>, v: Version)
    ensures v in Dedup(cs) <==> exists i :: 0 <= i < |cs| && FirstCleanAt(cs, i) && cs[i] == v
    decreases |cs|
  {
    if cs != [] {
      var init, c := cs[..|cs| - 1], cs[|cs| - 1];
      assert cs == init + [c];
      DedupStep(init, c);
      DedupFirstWins(init, v);
      DedupNames(init, c.name);
      var d := Dedup(init);
      forall i | 0 <= i < |init|
        ensures FirstCleanAt(cs, i) <==> FirstCleanAt(init, i)
      {
        assert forall j :: 0 <= j <= i ==> cs[j] == init[j];
      }
      if FirstCleanAt(cs, |cs| - 1) {
        assert !HasName(d, c.name);
      }
      if Clean(c) && !HasName(d, c.name) {
        forall j | 0 <= j < |cs| - 1 && Clean(cs[j])
          ensures cs[j].name != c.name
        {
          assert init[j] == cs[j];
        }
      }
      if v in Dedup(cs) && v !in d {
        assert v == c;
      }
      if exists i :: 0 <= i < |cs| && FirstCleanAt(cs, i) && cs[i] == v {
        var i :| 0 <= i < |cs| && FirstCleanAt(cs, i) && cs[i] == v;
        if i < |init| {
          assert init[i] == cs[i];
        }
      }
    }
  }

  /** The kept versions keep the order in which they were met. */
  lemma {:induction false} DedupOrdered(cs: seq<Version>)
    ensures Subsequence(Dedup(cs), cs)
    decreases |cs|
  {
    if cs != [] {
      var init, c := cs[..|cs| - 1], cs[|cs| - 1];
      assert cs == init + [c];
      DedupStep(init, c);
      DedupOrdered(init);
      var d := Dedup(init);
      if Dedup(cs) == d + [c] {
        assert (d + [c])[..|d|] == d;
      } else {
        SubsequenceDropLast(d, cs);
      }
    }
  }

  /** A subsequence of the init of `ys` is one of `ys`. */
  lemma SubsequenceDropLast<T>(xs: seq<T>, ys: seq<T>)
    requires ys != [] && Subsequence(xs, ys[..|ys| - 1])
    ensures Subsequence(xs, ys)
  {
  }

  /** Every kept version has a clean text without spaces. */
  lemma {:induction false} DedupClean(cs: seq<Version>, k: nat)
    requires forall i :: 0 <= i < |cs| ==> ' ' !in cs[i].text
    requires k < |Dedup(cs)|
    ensures Clean(Dedup(cs)[k]) && ' ' !in Dedup(cs)[k].text
  {
    var v := Dedup(cs)[k];
    DedupFirstWins(cs, v);
  }

  /** Every candidate of the rows carries the text of its row, which holds no space. */
  lemma CandidatesHaveNoSpace(rows: seq<FlavorRow>, i: nat)
    requires i < |Candidates(rows)|
    ensures ' ' !in Candidates(rows)[i].text
  {
    var j, k := FlattenElement(MapSeq(RowCandidates, rows), i);
    var row := rows[j];
    assert MapSeq(RowCandidates, rows)[j] == RowCandidates(row);
    if row.versionTable.Some? {
      assert RowCandidates(row)[k].text == CellText(row.textCell);
    }
  }

  // ---------------------------------------------------------------------------
  // get_flavor_texts

  /** The inner loop over a version table's links: each clean, unseen version name is appended. */
  method AddLinks(versions: seq<Version>, links: seq<VersionLink>, text: string) returns (versions': seq<Version>)
    ensures versions' == AddAll(versions, LinkVersions(links, text))
  {
    versions' := versions;
    for l := 0 to |links|
      invariant versions' == AddAll(versions, LinkVersions(links, text)[..l])
    {
      var a := links[l];
      var versionGroupName := a.title;
      var versionName := Strip(a.linkText);
      if Contains(text, "{{{") || Contains(text, "}}}") {
      } else {
        var version := Version(versionName, versionGroupName, text);
        var versionNameExist := exists k :: 0 <= k < |versions'| && versions'[k].name == versionName;
        if !versionNameExist {
          versions' := versions' + [version];
        }
      }
      assert LinkVersions(links, text)[..l + 1][..l] == LinkVersions(links, text)[..l];
    }
    assert LinkVersions(links, text)[..|links|] == LinkVersions(links, text);
  }

  /** One row: with a version table, its text is assembled and its links are added. */
  method AddRow(versions: seq<Version>, row: FlavorRow) returns (versions': seq<Version>)
    ensures versions' == AddAll(versions, Candidates([row]))
  {
    assert Candidates([row]) == RowCandidates(row) by {
      assert MapSeq(RowCandidates, [row]) == [RowCandidates(row)];
      assert Flatten([RowCandidates(row)]) == Flatten([]) + RowCandidates(row);
    }
    versions' := versions;
    if row.versionTable.Some? {
      var text := AssembleText(row.textCell);
      versions' := AddLinks(versions, row.versionTable.value, text);
    }
  }

  /** The rows of one table, in order. */
  method AddRows(versions: seq<Version>, rows: seq<FlavorRow>) returns (versions': seq<Version>)
    ensures versions' == AddAll(versions, Candidates(rows))
  {
    versions' := versions;
    for r := 0 to |rows|
      invariant versions' == AddAll(versions, Candidates(rows[..r]))
    {
      versions' := AddRow(versions', rows[r]);
      CandidatesAppend(rows[..r], [rows[r]]);
      assert rows[..r] + [rows[r]] == rows[..r + 1];
      AddAllAppend(versions, Candidates(rows[..r]), Candidates([rows[r]]));
    }
    assert rows[..|rows|] == rows;
  }

  /** The candidates of two runs of rows are those of the first run, then those of the second. */
  lemma CandidatesAppend(xs: seq<FlavorRow>, ys: seq<FlavorRow>)
    ensures Candidates(xs + ys) == Candidates(xs) + Candidates(ys)
  {
    MapSeqAppend(RowCandidates, xs, ys);
    FlattenAppend(MapSeq(RowCandidates, xs), MapSeq(RowCandidates, ys));
  }

  /** The versions of one generation: every row of every table, in order. */
  method GenerationVersions(tables: seq<seq<FlavorRow>>) returns (versions: seq<Version>)
    ensures versions == Dedup(Candidates(Flatten(tables)))
  {
    versions := [];
    for t := 0 to |tables|
      invariant versions == Dedup(Candidates(Flatten(tables[..t])))
    {
      ghost var done := Flatten(tables[..t]);
      versions := AddRows(versions, tables[t]);
      assert tables[..t + 1][..t] == tables[..t];
      CandidatesAppend(done, tables[t]);
      AddAllAppend([], Candidates(done), Candidates(tables[t]));
    }
    assert tables[..|tables|] == tables;
  }

  /** The entry for one generation heading. */
  function GenerationOf(section: GenerationSection): Generation {
    Generation(Strip(section.heading), Dedup(Candidates(Flatten(section.tables))))
  }

  /** `get_flavor_texts`: one entry per generation heading, in order. */
  method GetFlavorTexts(sections: seq<GenerationSection>) returns (texts: seq<Generation>)
    ensures |texts| == |sections|
    ensures forall g :: 0 <= g < |sections| ==> texts[g] == GenerationOf(sections[g])
  {
    texts := [];
    for g := 0 to |sections|
      invariant |texts| == g
      invariant forall h :: 0 <= h < g ==> texts[h] == GenerationOf(sections[h])
    {
      var versions := GenerationVersions(sections[g].tables);
      texts := texts + [Generation(Strip(sections[g].heading), versions)];
    }
  }

  /**
   * Within each generation the version names are distinct and every kept
   * text is clean and free of spaces.
   */
  lemma GenerationProperties(section: GenerationSection)
    ensures var vs := GenerationOf(section).versions;
      && DistinctNames(vs)
      && (forall k :: 0 <= k < |vs| ==> Clean(vs[k]) && ' ' !in vs[k].text)
  {
    var cs := Candidates(Flatten(section.tables));
    assert GenerationOf(section).versions == Dedup(cs);
    DedupDistinct(cs);
    forall i | 0 <= i < |cs| ensures ' ' !in cs[i].text {
      CandidatesHaveNoSpace(Flatten(section.tables), i);
    }
    forall k | 0 <= k < |Dedup(cs)| ensures Clean(Dedup(cs)[k]) && ' ' !in Dedup(cs)[k].text {
      DedupClean(cs, k);
    }
  }
}
