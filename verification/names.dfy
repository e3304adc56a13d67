/**
 * Names in other languages (`get_names`).
 *
 * The name table is given already decoded: its `varname1` rows, each with
 * the text nodes it contains, the text of its third cell and the first child
 * of that cell; and the texts of the Japanese and Korean spans.
 */
module Names {
  import opened Text

  const NintendoLabel: string := "任天堂"
  const EnglishLabel: string := "英文"
  const SpanishLabel: string := "西班牙文"
  const ItalianLabel: string := "意大利文"
  const GermanLabel: string := "德文"

  datatype NameRow = NameRow(strings: seq<string>, cellText: string, cellFirst: string)

  /** Some text node of the row contains `marker`. */
  predicate HasLabel(row: NameRow, marker: string) {
    exists k :: 0 <= k < |row.strings| && Contains(row.strings[k], marker)
  }

  /** `names` with `key` set to `value` when `present` holds. */
  function PutIf(names: map<string, string>, present: bool, key: string, value: string): map<string, string> {
    if present then names[key := value] else names
  }

  /**
   * The map after one row. The French entry is tested with the English label,
   * so it is written whenever the English one is, with the same text.
   */
  function RowUpdate(names: map<string, string>, row: NameRow): map<string, string> {
    var text := Strip(row.cellText);
    var m1 := PutIf(names, HasLabel(row, NintendoLabel), "zh_hant", Strip(row.cellFirst));
    var m2 := PutIf(m1, HasLabel(row, EnglishLabel), "en", text);
    var m3 := PutIf(m2, HasLabel(row, EnglishLabel), "fr", text);
    var m4 := PutIf(m3, HasLabel(row, SpanishLabel), "es", text);
    var m5 := PutIf(m4, HasLabel(row, GermanLabel), "de", text);
    PutIf(m5, HasLabel(row, ItalianLabel), "it", text)
  }

  function RowsUpdate(names: map<string, string>, rows: seq<NameRow>): map<string, string> {
    if rows == [] then names else RowUpdate(RowsUpdate(names, rows[..|rows| - 1]), rows[|rows| - 1])
  }

  /** The map `get_names` returns for the species `name`. */
  function NamesOf(name: string, rows: seq<NameRow>, ja: string, ko: string): map<string, string> {
    RowsUpdate(map["zh_hans" := name], rows)["ja" := Strip(ja)]["ko" := Strip(ko)]
  }

  /** One row of the loop in `get_names`: each label found writes its key. */
  method ReadRow(names: map<string, string>, tr: NameRow) returns (names': map<string, string>)
    ensures names' == RowUpdate(names, tr)
  {
    var trCn := HasLabel(tr, NintendoLabel);
    var trEn := HasLabel(tr, EnglishLabel);
    var trFr := HasLabel(tr, EnglishLabel);
    var trEs := HasLabel(tr, SpanishLabel);
    var trIt := HasLabel(tr, ItalianLabel);
    var trDe := HasLabel(tr, GermanLabel);
    var text := Strip(tr.cellText);
    names' := names;
    if trCn {
      names' := names'["zh_hant" := Strip(tr.cellFirst)];
    }
    assert names' == PutIf(names, trCn, "zh_hant", Strip(tr.cellFirst));
    ghost var m1 := names';
    if trEn {
      names' := names'["en" := text];
    }
    assert names' == PutIf(m1, trEn, "en", text);
    ghost var m2 := names';
    if trFr {
      names' := names'["fr" := text];
    }
    assert names' == PutIf(m2, trFr, "fr", text);
    ghost var m3 := names';
    if trEs {
      names' := names'["es" := text];
    }
    assert names' == PutIf(m3, trEs, "es", text);
    ghost var m4 := names';
    if trDe {
      names' := names'["de" := text];
    }
    assert names' == PutIf(m4, trDe, "de", text);
    ghost var m5 := names';
    if trIt {
      names' := names'["it" := text];
    }
    assert names' == PutIf(m5, trIt, "it", text);
  }

  /** The row loop of `get_names`. */
  method ReadRows(names: map<string, string>, rows: seq<NameRow>) returns (names': map<string, string>)
    ensures names' == RowsUpdate(names, rows)
  {
    names' := names;
    for r := 0 to |rows|
      invariant names' == RowsUpdate(names, rows[..r])
    {
      names' := ReadRow(names', rows[r]);
      assert rows[..r + 1][..r] == rows[..r];
    }
    assert rows[..|rows|] == rows;
  }

  /** `get_names`: the lookup name, the names found in the rows, then Japanese and Korean. */
  method GetNames(name: string, rows: seq<NameRow>, ja: string, ko: string) returns (names: map<string, string>)
    ensures names == NamesOf(name, rows, ja, ko)
  {
    names := map["zh_hans" := name];
    names := ReadRows(names, rows);
    names := names["ja" := Strip(ja)];
    names := names["ko" := Strip(ko)];
  }

  /** The keys the rows can write. */
  predicate RowKey(key: string) {
    key == "zh_hant" || key == "en" || key == "fr" || key == "es" || key == "de" || key == "it"
  }

  /** One row writes only its own keys. */
  lemma RowKeepsOtherKeys(names: map<string, string>, row: NameRow, key: string)
    requires !RowKey(key)
    ensures key in RowUpdate(names, row) <==> key in names
    ensures key in names ==> RowUpdate(names, row)[key] == names[key]
  {
  }

  /** One row writes the French entry exactly when it writes the English one, with the same text. */
  lemma RowKeepsFrenchMirror(names: map<string, string>, row: NameRow)
    requires ("fr" in names <==> "en" in names) && ("en" in names ==> names["fr"] == names["en"])
    ensures var m := RowUpdate(names, row);
      ("fr" in m <==> "en" in m) && ("en" in m ==> m["fr"] == m["en"])
  {
  }

  /** One row leaves the English entry alone unless it carries the English label, and then writes its text. */
  lemma RowEnglish(names: map<string, string>, row: NameRow)
    ensures HasLabel(row, EnglishLabel) ==> "en" in RowUpdate(names, row) && RowUpdate(names, row)["en"] == Strip(row.cellText)
    ensures !HasLabel(row, EnglishLabel) ==> ("en" in RowUpdate(names, row) <==> "en" in names)
  {
  }

  /** The rows write only their own keys, so the simplified-Chinese entry is never overwritten. */
  lemma {:induction false} RowsKeepOtherKeys(names: map<string, string>, rows: seq<NameRow>, key: string)
    requires !RowKey(key)
    ensures key in RowsUpdate(names, rows) <==> key in names
    ensures key in names ==> RowsUpdate(names, rows)[key] == names[key]
    decreases |rows|
  {
    if rows != [] {
      RowsKeepOtherKeys(names, rows[..|rows| - 1], key);
      RowKeepsOtherKeys(RowsUpdate(names, rows[..|rows| - 1]), rows[|rows| - 1], key);
    }
  }

  /** The French entry always mirrors the English one. */
  lemma {:induction false} FrenchMirrorsEnglish(names: map<string, string>, rows: seq<NameRow>)
    requires ("fr" in names <==> "en" in names) && ("en" in names ==> names["fr"] == names["en"])
    ensures var m := RowsUpdate(names, rows);
      ("fr" in m <==> "en" in m) && ("en" in m ==> m["fr"] == m["en"])
    decreases |rows|
  {
    if rows != [] {
      FrenchMirrorsEnglish(names, rows[..|rows| - 1]);
      RowKeepsFrenchMirror(RowsUpdate(names, rows[..|rows| - 1]), rows[|rows| - 1]);
    }
  }

  /** The English entry is present exactly when some row carries the English label. */
  lemma {:induction false} EnglishPresent(names: map<string, string>, rows: seq<NameRow>)
    requires "en" !in names
    ensures "en" in RowsUpdate(names, rows) <==> exists r :: 0 <= r < |rows| && HasLabel(rows[r], EnglishLabel)
    decreases |rows|
  {
    if rows != [] {
      var init := rows[..|rows| - 1];
      EnglishPresent(names, init);
      RowEnglish(RowsUpdate(names, init), rows[|rows| - 1]);
      if exists r :: 0 <= r < |init| && HasLabel(init[r], EnglishLabel) {
        var r :| 0 <= r < |init| && HasLabel(init[r], EnglishLabel);
        assert rows[r] == init[r];
      }
      if exists r :: 0 <= r < |rows| && HasLabel(rows[r], EnglishLabel) {
        var r :| 0 <= r < |rows| && HasLabel(rows[r], EnglishLabel);
        if r < |init| {
          assert init[r] == rows[r];
        }
      }
    }
  }

  /** The English entry holds the stripped third cell of the last row that carries the English label. */
  lemma {:induction false} EnglishFromLastRow(names: map<string, string>, rows: seq<NameRow>, k: nat)
    requires k < |rows| && HasLabel(rows[k], EnglishLabel)
    requires forall j :: k < j < |rows| ==> !HasLabel(rows[j], EnglishLabel)
    ensures var m := RowsUpdate(names, rows); "en" in m && m["en"] == Strip(rows[k].cellText)
    decreases |rows|
  {
    if k < |rows| - 1 {
      EnglishFromLastRow(names, rows[..|rows| - 1], k);
    }
    RowEnglish(RowsUpdate(names, rows[..|rows| - 1]), rows[|rows| - 1]);
  }

  /**
   * The map always holds the lookup name under `zh_hans` and the Japanese
   * and Korean names; its French entry mirrors its English one, which is
   * present exactly when a row carries the English label.
   */
  lemma NamesProperties(name: string, rows: seq<NameRow>, ja: string, ko: string)
    ensures var m := NamesOf(name, rows, ja, ko);
      && "zh_hans" in m && m["zh_hans"] == name
      && "ja" in m && m["ja"] == Strip(ja)
      && "ko" in m && m["ko"] == Strip(ko)
      && ("fr" in m <==> "en" in m) && ("en" in m ==> m["fr"] == m["en"])
      && ("en" in m <==> exists r :: 0 <= r < |rows| && HasLabel(rows[r], EnglishLabel))
  {
    var init := map["zh_hans" := name];
    RowsKeepOtherKeys(init, rows, "zh_hans");
    FrenchMirrorsEnglish(init, rows);
    EnglishPresent(init, rows);
  }
}
