/**
 * Form names and per-form records (`get_form_names`, `get_form_infos`).
 *
 * The page is given already decoded. The form selector table, when there is
 * one, is the list of the first `th` texts of its visible rows. Each info
 * table is its `fulltable` cells plus the landmark sections found in it
 * (gender, shape, colour, catch rate, egg groups).
 */
module Forms {
  import opened Wrappers
  import opened Text

  const MegaMarker: string := "超级"
  const GmaxMarker: string := "极巨化"

  /** The ability table under the ability link: the links of its first cell, and of its second cell if it has one. */
  datatype AbilityTable = AbilityTable(normal: seq<string>, hidden: Option<seq<string>>)

  /** An experience table: the first text of its first cell and the text of its `small`. */
  datatype ExperienceTable = ExperienceTable(number: string, speed: string)

  /**
   * A `fulltable` cell: for each section, what it holds when its landmark is
   * found in the cell (the type spans; the texts of the children of the
   * cell's first link placed directly under a `td`; the ability table; the
   * experience tables), whether a height or weight label
   * occurs, and the text of the cell's first `roundy` cell.
   */
  datatype FullCell = FullCell(
    types: Option<seq<string>>,
    genus: Option<seq<string>>,
    ability: Option<AbilityTable>,
    experience: Option<seq<ExperienceTable>>,
    heightLabel: bool,
    weightLabel: bool,
    firstRoundy: string)

  /** The gender table: the texts of the male and of the female span, when found. */
  datatype GenderTable = GenderTable(male: Option<string>, female: Option<string>)

  /** The catch-rate cell: its first text and the text of its `span`. */
  datatype CatchCell = CatchCell(number: string, rate: string)

  /**
   * An info table. `shape` holds, when the shape landmark is found, the
   * `title` of the link after it; `color` the colour span's text; `eggGroups`
   * the egg-group link texts.
   */
  datatype InfoTable = InfoTable(
    cells: seq<FullCell>,
    gender: Option<GenderTable>,
    shape: Option<Option<string>>,
    color: Option<string>,
    catchRate: Option<CatchCell>,
    eggGroups: Option<seq<string>>)

  datatype Ability = Ability(name: string, isHidden: bool)
  datatype Experience = Experience(number: string, speed: string)
  datatype GenderRate = GenderRate(male: string, female: string)
  datatype CatchRate = CatchRate(number: string, rate: string)

  /**
   * One form record. A field is `None` when its key is absent from the
   * record; `genderRate` is `Some(None)` when the key holds null.
   */
  datatype FormInfo = FormInfo(
    name: string,
    isMega: bool,
    isGmax: bool,
    types: Option<seq<string>>,
    genus: Option<string>,
    ability: Option<seq<Ability>>,
    experience: Option<Experience>,
    height: Option<string>,
    weight: Option<string>,
    genderRate: Option<Option<GenderRate>>,
    shape: Option<Option<string>>,
    color: Option<string>,
    catchRate: Option<CatchRate>,
    eggGroups: Option<seq<string>>)

  // ---------------------------------------------------------------------------
  // get_form_names

  /**
   * `get_form_names`: the stripped first-header texts of the selector rows,
   * or the single empty name when the page has no selector table.
   */
  method GetFormNames(formTable: Option<seq<string>>) returns (names: seq<string>)
    ensures formTable.None? ==> names == [""]
    ensures formTable.Some? ==>
      (|names| == |formTable.value| && forall i :: 0 <= i < |names| ==> names[i] == Strip(formTable.value[i]))
  {
    names := [];
    if formTable.Some? {
      var rows := formTable.value;
      for r := 0 to |rows|
        invariant |names| == r && forall i :: 0 <= i < r ==> names[i] == Strip(rows[i])
      {
        var name := Strip(rows[r]);
        names := names + [name];
      }
    } else {
      names := names + [""];
    }
  }

  // ---------------------------------------------------------------------------
  // The record of one form: specification

  /** The record before any section is read: the name and the mega/gmax flags. */
  function BaseInfo(name: string): FormInfo {
    var isMega := Contains(name, MegaMarker);
    var isGmax := !isMega && Contains(name, GmaxMarker);
    FormInfo(name, isMega, isGmax, None, None, None, None, None, None, None, None, None, None, None)
  }

  /** The abilities of an ability table: the first cell's links, then the second cell's, marked hidden. */
  function Abilities(t: AbilityTable): seq<Ability> {
    MapSeq(NormalAbility, t.normal) + (if t.hidden.Some? then MapSeq(HiddenAbility, t.hidden.value) else [])
  }

  function NormalAbility(linkText: string): Ability {
    Ability(Strip(linkText), false)
  }

  function HiddenAbility(linkText: string): Ability {
    Ability(Strip(linkText), true)
  }

  function ExperienceOf(t: ExperienceTable): Experience {
    Experience(Strip(t.number), RemoveChar(RemoveChar(Strip(t.speed), '（'), '）'))
  }

  /** The record after one `fulltable` cell: every section found in the cell overwrites its key. */
  function CellUpdate(info: FormInfo, cell: FullCell): FormInfo {
    info.(
      types := if cell.types.Some? then Some(StripEach(cell.types.value)) else info.types,
      genus := if cell.genus.Some? && cell.genus.value != [] then
        Some(Strip(cell.genus.value[|cell.genus.value| - 1])) else info.genus,
      ability := if cell.ability.Some? then Some(Abilities(cell.ability.value)) else info.ability,
      experience := if cell.experience.Some? && cell.experience.value != [] then
        Some(ExperienceOf(cell.experience.value[|cell.experience.value| - 1])) else info.experience,
      height := if cell.heightLabel then Some(Strip(cell.firstRoundy)) else info.height,
      weight := if cell.weightLabel then Some(Strip(cell.firstRoundy)) else info.weight)
  }

  /** The record after the cells, in order. */
  function CellsUpdate(info: FormInfo, cells: seq<FullCell>): FormInfo {
    if cells == [] then info else CellUpdate(CellsUpdate(info, cells[..|cells| - 1]), cells[|cells| - 1])
  }

  /** The percentage found in a span's stripped text, if the span is there. */
  function Percent(span: Option<string>): Option<string> {
    if span.Some? then FirstPercent(Strip(span.value)) else None
  }

  /** A found span always holds a percentage; `.group()` fails otherwise. */
  predicate GenderParses(g: GenderTable) {
    (g.male.Some? ==> FirstPercent(Strip(g.male.value)).Some?)
    && (g.female.Some? ==> FirstPercent(Strip(g.female.value)).Some?)
  }

  function GenderRateOf(g: GenderTable): Option<GenderRate> {
    var male, female := Percent(g.male), Percent(g.female);
    if male.Some? && female.Some? then Some(GenderRate(male.value, female.value)) else None
  }

  function EggGroupName(linkText: string): string {
    RemoveChar(Strip(linkText), '群')
  }

  /** The record built for form `name` from its info table. */
  function FormInfoOf(name: string, table: InfoTable): FormInfo {
    var info := CellsUpdate(BaseInfo(name), table.cells);
    info.(
      genderRate := if table.gender.Some? then Some(GenderRateOf(table.gender.value)) else info.genderRate,
      shape := if table.shape.Some? then table.shape else info.shape,
      color := if table.color.Some? then Some(Strip(table.color.value)) else info.color,
      catchRate := if table.catchRate.Some? then
        Some(CatchRate(Strip(table.catchRate.value.number), Strip(table.catchRate.value.rate))) else info.catchRate,
      eggGroups := if table.eggGroups.Some? then Some(MapSeq(EggGroupName, table.eggGroups.value)) else info.eggGroups)
  }

  // ---------------------------------------------------------------------------
  // The record of one form: properties

  /** The cells never touch the name, the flags or the keys read outside them. */
  lemma {:induction false} CellsKeepName(info: FormInfo, cells: seq<FullCell>)
    ensures var r := CellsUpdate(info, cells);
      && r.name == info.name && r.isMega == info.isMega && r.isGmax == info.isGmax
      && r.genderRate == info.genderRate
    decreases |cells|
  {
    if cells != [] {
      CellsKeepName(info, cells[..|cells| - 1]);
    }
  }

  /**
   * A record carries its form's name; it is a mega form exactly when the name
   * contains 超级, and a gigantamax form exactly when it contains 极巨化 but
   * not 超级; so never both.
   */
  lemma FormFlags(name: string, table: InfoTable)
    ensures var r := FormInfoOf(name, table);
      && r.name == name
      && (r.isMega <==> Contains(name, MegaMarker))
      && (r.isGmax <==> !Contains(name, MegaMarker) && Contains(name, GmaxMarker))
      && !(r.isMega && r.isGmax)
  {
    CellsKeepName(BaseInfo(name), table.cells);
  }

  /**
   * The gender key is present exactly when the gender landmark is, and holds
   * a rate exactly when both spans are found; the rate's sides are the
   * percentages of the spans.
   */
  lemma GenderRateBoth(name: string, table: InfoTable)
    requires table.gender.Some? ==> GenderParses(table.gender.value)
    ensures var r := FormInfoOf(name, table);
      && (r.genderRate.Some? <==> table.gender.Some?)
      && (r.genderRate.Some? && r.genderRate.value.Some? <==>
            table.gender.Some? && table.gender.value.male.Some? && table.gender.value.female.Some?)
      && (r.genderRate.Some? && r.genderRate.value.Some? ==>
            var g := table.gender.value;
            && FirstPercent(Strip(g.male.value)) == Some(r.genderRate.value.value.male)
            && FirstPercent(Strip(g.female.value)) == Some(r.genderRate.value.value.female))
  {
    CellsKeepName(BaseInfo(name), table.cells);
  }

  /**
   * The ability list holds the first cell's links, in order and not hidden,
   * followed by the second cell's links, in order and hidden.
   */
  lemma AbilityOrder(t: AbilityTable, i: nat)
    requires i < |Abilities(t)|
    ensures var hidden := if t.hidden.Some? then t.hidden.value else [];
      && |Abilities(t)| == |t.normal| + |hidden|
      && (i < |t.normal| ==> Abilities(t)[i] == Ability(Strip(t.normal[i]), false))
      && (i >= |t.normal| ==> Abilities(t)[i] == Ability(Strip(hidden[i - |t.normal|]), true))
  {
    var hidden := if t.hidden.Some? then t.hidden.value else [];
    var first := MapSeq(NormalAbility, t.normal);
    if t.hidden.Some? {
      assert Abilities(t) == first + MapSeq(HiddenAbility, hidden);
    } else {
      assert Abilities(t) == first + [];
    }
    if i < |t.normal| {
      assert Abilities(t)[i] == first[i] == NormalAbility(t.normal[i]);
    } else {
      assert Abilities(t)[i] == MapSeq(HiddenAbility, hidden)[i - |t.normal|] == HiddenAbility(hidden[i - |t.normal|]);
    }
  }

  /** The types come from the last cell that has a type section. */
  lemma {:induction false} TypesFromLastCell(info: FormInfo, cells: seq<FullCell>, k: nat)
    requires k < |cells| && cells[k].types.Some?
    requires forall j :: k < j < |cells| ==> cells[j].types.None?
    ensures CellsUpdate(info, cells).types == Some(StripEach(cells[k].types.value))
    decreases |cells|
  {
    if k < |cells| - 1 {
      TypesFromLastCell(info, cells[..|cells| - 1], k);
    }
  }

  /** Without a type section in any cell, the types are left as they were. */
  lemma {:induction false} TypesUntouched(info: FormInfo, cells: seq<FullCell>)
    requires forall j :: 0 <= j < |cells| ==> cells[j].types.None?
    ensures CellsUpdate(info, cells).types == info.types
    decreases |cells|
  {
    if cells != [] {
      TypesUntouched(info, cells[..|cells| - 1]);
    }
  }

  // ---------------------------------------------------------------------------
  // get_form_infos

  /** The two loops over the ability table's cells. */
  method CollectAbilities(t: AbilityTable) returns (abilities: seq<Ability>)
    ensures abilities == Abilities(t)
  {
    abilities := [];
    for k := 0 to |t.normal|
      invariant abilities == MapSeq(NormalAbility, t.normal[..k])
    {
      var name := Strip(t.normal[k]);
      abilities := abilities + [Ability(name, false)];
      MapSeqSnoc(NormalAbility, t.normal, k);
    }
    assert t.normal[..|t.normal|] == t.normal;
    if t.hidden.Some? {
      var hidden := t.hidden.value;
      ghost var first := abilities;
      for k := 0 to |hidden|
        invariant abilities == first + MapSeq(HiddenAbility, hidden[..k])
      {
        var name := Strip(hidden[k]);
        abilities := abilities + [Ability(name, true)];
        MapSeqSnoc(HiddenAbility, hidden, k);
      }
      assert hidden[..|hidden|] == hidden;
    }
  }

  /** The type spans' stripped texts, in order. */
  method CollectTypes(typeSpans: seq<string>) returns (types: seq<string>)
    ensures types == StripEach(typeSpans)
  {
    types := [];
    for k := 0 to |typeSpans|
      invariant types == StripEach(typeSpans[..k])
    {
      types := types + [Strip(typeSpans[k])];
    }
    assert typeSpans[..|typeSpans|] == typeSpans;
  }

  /** The loop over the genus link's children: each one overwrites the genus, so the last one is kept. */
  method LastGenus(children: seq<string>, genus: Option<string>) returns (genus': Option<string>)
    ensures children == [] ==> genus' == genus
    ensures children != [] ==> genus' == Some(Strip(children[|children| - 1]))
  {
    genus' := genus;
    for k := 0 to |children|
      invariant k > 0 ==> genus' == Some(Strip(children[k - 1]))
      invariant k == 0 ==> genus' == genus
    {
      genus' := Some(Strip(children[k]));
    }
  }

  /** The loop over the experience tables: each one overwrites the experience, so the last one is kept. */
  method LastExperience(tables: seq<ExperienceTable>, experience: Option<Experience>) returns (experience': Option<Experience>)
    ensures tables == [] ==> experience' == experience
    ensures tables != [] ==> experience' == Some(ExperienceOf(tables[|tables| - 1]))
  {
    experience' := experience;
    for k := 0 to |tables|
      invariant k > 0 ==> experience' == Some(ExperienceOf(tables[k - 1]))
      invariant k == 0 ==> experience' == experience
    {
      var exp := Strip(tables[k].number);
      var speed := RemoveChar(RemoveChar(Strip(tables[k].speed), '（'), '）');
      experience' := Some(Experience(exp, speed));
    }
  }

  /** The type section of a cell. */
  method ReadTypes(info: FormInfo, cell: FullCell) returns (info': FormInfo)
    ensures info' == info.(types := if cell.types.Some? then Some(StripEach(cell.types.value)) else info.types)
  {
    info' := info;
    if cell.types.Some? {
      var types := CollectTypes(cell.types.value);
      info' := info'.(types := Some(types));
    }
  }

  /** The genus section of a cell. */
  method ReadGenus(info: FormInfo, cell: FullCell) returns (info': FormInfo)
    ensures info' == info.(genus := if cell.genus.Some? && cell.genus.value != [] then
                                      Some(Strip(cell.genus.value[|cell.genus.value| - 1])) else info.genus)
  {
    info' := info;
    if cell.genus.Some? {
      var genus := LastGenus(cell.genus.value, info'.genus);
      info' := info'.(genus := genus);
    }
  }

  /** The ability section of a cell. */
  method ReadAbility(info: FormInfo, cell: FullCell) returns (info': FormInfo)
    ensures info' == info.(ability := if cell.ability.Some? then Some(Abilities(cell.ability.value)) else info.ability)
  {
    info' := info;
    if cell.ability.Some? {
      var abilities := CollectAbilities(cell.ability.value);
      info' := info'.(ability := Some(abilities));
    }
  }

  /** The experience section of a cell. */
  method ReadExperience(info: FormInfo, cell: FullCell) returns (info': FormInfo)
    ensures info' == info.(experience := if cell.experience.Some? && cell.experience.value != [] then
                                           Some(ExperienceOf(cell.experience.value[|cell.experience.value| - 1]))
                                         else info.experience)
  {
    info' := info;
    if cell.experience.Some? {
      var experience := LastExperience(cell.experience.value, info'.experience);
      info' := info'.(experience := experience);
    }
  }

  /** The body of the loop over the `fulltable` cells: its sections in the order the page is read. */
  method ApplyFullCell(info: FormInfo, cell: FullCell) returns (info': FormInfo)
    ensures info' == CellUpdate(info, cell)
  {
    info' := ReadTypes(info, cell);
    info' := ReadGenus(info', cell);
    info' := ReadAbility(info', cell);
    info' := ReadExperience(info', cell);
    if cell.heightLabel {
      info' := info'.(height := Some(Strip(cell.firstRoundy)));
    }
    if cell.weightLabel {
      info' := info'.(weight := Some(Strip(cell.firstRoundy)));
    }
  }

  /** The loop over the `fulltable` cells of an info table. */
  method ApplyCells(info: FormInfo, cells: seq<FullCell>) returns (info': FormInfo)
    ensures info' == CellsUpdate(info, cells)
  {
    info' := info;
    for k := 0 to |cells|
      invariant info' == CellsUpdate(info, cells[..k])
    {
      info' := ApplyFullCell(info', cells[k]);
      assert cells[..k + 1][..k] == cells[..k];
    }
    assert cells[..|cells|] == cells;
  }

  /** The egg-group names: each link's stripped text without 群. */
  method CollectEggGroups(links: seq<string>) returns (eggGroups: seq<string>)
    ensures eggGroups == MapSeq(EggGroupName, links)
  {
    eggGroups := [];
    for k := 0 to |links|
      invariant eggGroups == MapSeq(EggGroupName, links[..k])
    {
      var eggGroup := RemoveChar(Strip(links[k]), '群');
      eggGroups := eggGroups + [eggGroup];
      MapSeqSnoc(EggGroupName, links, k);
    }
    assert links[..|links|] == links;
  }

  /** The gender section of an info table: a rate only when both percentages are found. */
  method ReadGender(info: FormInfo, table: InfoTable) returns (info': FormInfo)
    requires table.gender.Some? ==> GenderParses(table.gender.value)
    ensures info' == info.(genderRate := if table.gender.Some? then Some(GenderRateOf(table.gender.value)) else info.genderRate)
  {
    info' := info;
    if table.gender.Some? {
      var g := table.gender.value;
      var male := if g.male.Some? then Some(FirstPercent(Strip(g.male.value)).value) else None;
      var female := if g.female.Some? then Some(FirstPercent(Strip(g.female.value)).value) else None;
      info' := info'.(genderRate := Some(if male.Some? && female.Some? then Some(GenderRate(male.value, female.value)) else None));
    }
  }

  /** The shape and colour sections of an info table. */
  method ReadShapeAndColor(info: FormInfo, table: InfoTable) returns (info': FormInfo)
    ensures info' == info.(shape := if table.shape.Some? then table.shape else info.shape,
                           color := if table.color.Some? then Some(Strip(table.color.value)) else info.color)
  {
    info' := info;
    if table.shape.Some? {
      info' := info'.(shape := Some(table.shape.value));
    }
    if table.color.Some? {
      info' := info'.(color := Some(Strip(table.color.value)));
    }
  }

  /** The catch-rate and egg-group sections of an info table. */
  method ReadCatchAndEggs(info: FormInfo, table: InfoTable) returns (info': FormInfo)
    ensures info' == info.(
      catchRate := if table.catchRate.Some? then
        Some(CatchRate(Strip(table.catchRate.value.number), Strip(table.catchRate.value.rate))) else info.catchRate,
      eggGroups := if table.eggGroups.Some? then Some(MapSeq(EggGroupName, table.eggGroups.value)) else info.eggGroups)
  {
    info' := info;
    if table.catchRate.Some? {
      var num := Strip(table.catchRate.value.number);
      var rate := Strip(table.catchRate.value.rate);
      info' := info'.(catchRate := Some(CatchRate(num, rate)));
    }
    if table.eggGroups.Some? {
      var eggGroups := CollectEggGroups(table.eggGroups.value);
      info' := info'.(eggGroups := Some(eggGroups));
    }
  }

  /** The record of one form: name and flags, the `fulltable` cells, then the table's own sections. */
  method FormInfoFor(name: string, table: InfoTable) returns (info: FormInfo)
    requires table.gender.Some? ==> GenderParses(table.gender.value)
    ensures info == FormInfoOf(name, table)
  {
    info := FormInfo(name, false, false, None, None, None, None, None, None, None, None, None, None, None);
    if Contains(name, MegaMarker) {
      info := info.(isMega := true);
    } else if Contains(name, GmaxMarker) {
      info := info.(isGmax := true);
    }
    info := ApplyCells(info, table.cells);
    info := ReadGender(info, table);
    info := ReadShapeAndColor(info, table);
    info := ReadCatchAndEggs(info, table);
  }

  function Min(a: nat, b: nat): nat {
    if a < b then a else b
  }

  /**
   * `get_form_infos`: one record per info table whose position has a form
   * name, record `i` named `names[i]`.
   */
  method GetFormInfos(tables: seq<InfoTable>, names: seq<string>) returns (infos: seq<FormInfo>)
    requires forall i :: 0 <= i < |tables| && i < |names| && tables[i].gender.Some? ==> GenderParses(tables[i].gender.value)
    ensures |infos| == Min(|tables|, |names|)
    ensures forall i :: 0 <= i < |infos| ==> infos[i] == FormInfoOf(names[i], tables[i])
  {
    infos := [];
    for index := 0 to |tables|
      invariant |infos| == Min(index, |names|)
      invariant forall i :: 0 <= i < |infos| ==> infos[i] == FormInfoOf(names[i], tables[i])
    {
      if index < |names| {
        var info := FormInfoFor(names[index], tables[index]);
        infos := infos + [info];
      }
    }
  }
}
