/** Cutting the services of a page, in the chosen order, into their folders. */
module Sections {
  import opened Prelude

  datatype ServiceRow = ServiceRow(service: int, folder: Option<int>)

  /** The services of one folder under its name, or those without a folder. */
  datatype Section = Section(folder: Option<int>, title: Option<string>, rows: seq<ServiceRow>)

  function TitleOf(names: map<int, string>, folder: Option<int>): Option<string> {
    if folder.Some? && folder.value in names then Some(names[folder.value]) else None
  }

  function Rows(sections: seq<Section>): seq<ServiceRow> {
    if sections == [] then [] else Rows(sections[..|sections| - 1]) + sections[|sections| - 1].rows
  }

  /** A section holds rows, all of its folder, under that folder's name. */
  predicate Filled(section: Section, names: map<int, string>) {
    && section.rows != []
    && section.title == TitleOf(names, section.folder)
    && forall row <- section.rows :: row.folder == section.folder
  }

  /** The sections hold the rows in their order, cut only where the folder
      changes. */
  ghost predicate Cuts(sections: seq<Section>, rows: seq<ServiceRow>, names: map<int, string>) {
    && Rows(sections) == rows
    && (forall i | 0 <= i < |sections| :: Filled(sections[i], names))
    && (forall i | 0 < i < |sections| :: sections[i - 1].folder != sections[i].folder)
  }

  lemma RowExtendsLast(sections: seq<Section>, rows: seq<ServiceRow>, names: map<int, string>, row: ServiceRow)
    requires Cuts(sections, rows, names) && sections != []
    requires sections[|sections| - 1].folder == row.folder
    ensures var last := |sections| - 1;
      Cuts(sections[last := sections[last].(rows := sections[last].rows + [row])], rows + [row], names)
  {}

  lemma RowStartsSection(sections: seq<Section>, rows: seq<ServiceRow>, names: map<int, string>, row: ServiceRow)
    requires Cuts(sections, rows, names)
    requires sections != [] ==> sections[|sections| - 1].folder != row.folder
    ensures Cuts(sections + [Section(row.folder, TitleOf(names, row.folder), [row])], rows + [row], names)
  {
    var after := sections + [Section(row.folder, TitleOf(names, row.folder), [row])];
    assert after[..|after| - 1] == sections;
    forall i | 0 <= i < |after| ensures Filled(after[i], names) {
      if i < |sections| {
        assert Filled(sections[i], names);
      }
    }
  }

  method Sections(rows: seq<ServiceRow>, names: map<int, string>) returns (sections: seq<Section>)
    ensures Cuts(sections, rows, names)
  {
    hide Rows, Filled;
    sections := [];
    assert Cuts([], rows[..0], names) by { NoRows(names); }
    for i := 0 to |rows|
      invariant Cuts(sections, rows[..i], names)
    {
      var row := rows[i];
      var last := |sections| - 1;
      assert rows[..i + 1] == rows[..i] + [row];
      if last >= 0 && sections[last].folder == row.folder {
        RowExtendsLast(sections, rows[..i], names, row);
        sections := sections[last := sections[last].(rows := sections[last].rows + [row])];
      } else {
        RowStartsSection(sections, rows[..i], names, row);
        sections := sections + [Section(row.folder, TitleOf(names, row.folder), [row])];
      }
    }
    assert rows[..|rows|] == rows;
  }

  lemma NoRows(names: map<int, string>)
    ensures Cuts([], [], names)
  {}

  /** There is only one way to cut the rows so. */
  lemma {:induction false} CutIsUnique(a: seq<Section>, b: seq<Section>, rows: seq<ServiceRow>, names: map<int, string>)
    requires Cuts(a, rows, names) && Cuts(b, rows, names)
    ensures a == b
    decreases |a|
  {
    hide Cuts, Rows, Filled;
    LastRows(a, rows, names);
    LastRows(b, rows, names);
    if a != [] && b != [] {
      LastSection(a, rows, names);
      LastSection(b, rows, names);
      var i, j := |a| - 1, |b| - 1;
      if |a[i].rows| < |b[j].rows| {
        LongerLastIsOfAnother(a, b, rows, names);
      } else if |b[j].rows| < |a[i].rows| {
        LongerLastIsOfAnother(b, a, rows, names);
      }
      assert a[i] == b[j];
      CutIsUnique(a[..i], b[..j], rows[..|rows| - |a[i].rows|], names);
      assert a == a[..i] + [a[i]] && b == b[..j] + [b[j]];
    }
  }

  /** The last section is that of the last row. */
  lemma LastSection(a: seq<Section>, rows: seq<ServiceRow>, names: map<int, string>)
    requires Cuts(a, rows, names) && a != []
    ensures rows != [] && a[|a| - 1].folder == rows[|rows| - 1].folder
    ensures a[|a| - 1].title == TitleOf(names, a[|a| - 1].folder)
  {}

  lemma LastRows(a: seq<Section>, rows: seq<ServiceRow>, names: map<int, string>)
    requires Cuts(a, rows, names)
    ensures a == [] <==> rows == []
    ensures a != [] ==>
      var last := a[|a| - 1];
      var before := |rows| - |last.rows|;
      && Filled(last, names) && 0 <= before < |rows| && rows[before..] == last.rows
      && Cuts(a[..|a| - 1], rows[..before], names)
      && (|a| > 1 ==> a[|a| - 2].folder != last.folder)
  {}

  /** Cut too late, the last section would start with a row of another folder. */
  lemma LongerLastIsOfAnother(a: seq<Section>, b: seq<Section>, rows: seq<ServiceRow>, names: map<int, string>)
    requires Cuts(a, rows, names) && Cuts(b, rows, names) && a != [] && b != []
    requires |a[|a| - 1].rows| < |b[|b| - 1].rows|
    ensures a[|a| - 1].folder != b[|b| - 1].folder
  {
    hide Cuts;
    LastRows(a, rows, names);
    LastRows(b, rows, names);
    var last := b[|b| - 1];
    var at := |rows| - |a[|a| - 1].rows| - 1;
    assert rows[at] == last.rows[at - (|rows| - |last.rows|)];
    LastRows(a[..|a| - 1], rows[..at + 1], names);
    assert rows[at] == rows[..at + 1][at];
  }
}
