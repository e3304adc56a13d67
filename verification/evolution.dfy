/**
 * Evolution-chain reconstruction (`get_evolution_chains` and its helpers).
 *
 * The evolution table is given already decoded: its rows of direct `td`
 * cells, where each cell carries its text and, when `get_pokemon` can decode
 * it, the entity it shows; and the texts of the table's `small` stage labels.
 */
module Evolution {
  import opened Wrappers
  import opened Text

  const Unevolved: string := "未进化"
  const Baby: string := "幼年"
  const DoesNotEvolve: string := "不进化"

  /** The stages that start a lineage; a same-stage neighbour at one of these is a second base form. */
  predicate IsBaseStage(stage: string) {
    stage == Unevolved || stage == Baby
  }

  /** What `get_pokemon` decodes from an entity cell. */
  datatype Entity = Entity(name: string, stage: string, formName: Option<string>)

  /**
   * A direct `td` of a table row: its `get_text()`, and what `get_pokemon`
   * decodes from it (read only for the cells at even positions).
   */
  datatype Cell = Cell(text: string, entity: Entity)

  /** The result of `get_evolution_condition`. */
  datatype Condition = Condition(text: string, backText: string)

  datatype Node = Node(
    name: string,
    formName: Option<string>,
    stage: string,
    text: Option<string>,
    backText: Option<string>,
    from: Option<string>)

  /**
   * The two shapes `get_evolution_chains` returns: without an evolution
   * heading, a one-element list holding the bare sentinel node; otherwise a
   * list of chains.
   */
  datatype EvolutionChains = NoEvolution(sentinel: Node) | Chains(chains: seq<seq<Node>>)

  // ---------------------------------------------------------------------------
  // Condition cells

  /** `get_evolution_condition`: the forward text before the first →, the back text after the first ←. */
  function GetEvolutionCondition(raw: string): (c: Condition)
    ensures '→' !in c.text
  {
    var evoText := (
      if '→' in raw then
        BeforeAfter(raw, '→');
        StripKeepsChars(Before(raw, '→'), '→');
        Strip(SplitOnce(raw, '→')[0])
      else
        StripKeepsChars(raw, '→');
        Strip(raw));
    var backText := if '←' in raw then Strip(SplitOnce(raw, '←')[1]) else "";
    Condition(evoText, backText)
  }

  /** The back text is empty without a ←, and otherwise the stripped text after the first ←. */
  lemma BackTextSplit(raw: string)
    ensures var c := GetEvolutionCondition(raw);
      && ('←' !in raw ==> c.backText == "")
      && ('←' in raw ==> exists i :: 0 <= i < |raw| && raw[i] == '←' && '←' !in raw[..i]
                                     && c.backText == Strip(raw[i + 1..]))
  {
    if '←' in raw {
      BeforeAfter(raw, '←');
      var i := |Before(raw, '←')|;
      assert raw[..i] == Before(raw, '←') && raw[i + 1..] == After(raw, '←');
    }
  }

  /**
   * The forward text is the stripped text before the first →, or the whole
   * stripped cell without one; so it never contains →.
   */
  lemma ForwardTextSplit(raw: string)
    ensures var c := GetEvolutionCondition(raw);
      && ('→' !in raw ==> c.text == Strip(raw))
      && ('→' in raw ==> exists i :: 0 <= i < |raw| && raw[i] == '→' && '→' !in raw[..i]
                                    && c.text == Strip(raw[..i]))
      && '→' !in c.text
  {
    if '→' in raw {
      BeforeAfter(raw, '→');
      var before := Before(raw, '→');
      assert raw[..|before|] == before;
    }
  }

  // ---------------------------------------------------------------------------
  // Node emission: the specification

  /**
   * The `from` of an entity `cur` whose layout predecessor (two cells back)
   * is `pred`, when the node emitted just before it has `from` `lastFrom`.
   */
  function NextFrom(pred: Entity, cur: Entity, lastFrom: Option<string>): Option<string> {
    if pred.stage != cur.stage then Some(pred.name)
    else if !IsBaseStage(cur.stage) then lastFrom
    else None
  }

  /** The texts of the condition cells: entry `k` is cell `2k+1`, the one between nodes `k` and `k+1`. */
  function ConditionTexts(cells: seq<Cell>): (texts: seq<string>)
    ensures 2 * |texts| <= |cells| <= 2 * |texts| + 1
  {
    seq(|cells| / 2, k requires 0 <= k < |cells| / 2 => cells[2 * k + 1].text)
  }

  /** The decoded condition cells. */
  function Conditions(cells: seq<Cell>): (conds: seq<Condition>)
    ensures 2 * |conds| <= |cells| <= 2 * |conds| + 1
  {
    MapSeq(GetEvolutionCondition, ConditionTexts(cells))
  }

  /** The node for entity `e`, entered over `cond`, linked to `from`. */
  function MakeNode(e: Entity, cond: Option<Condition>, from: Option<string>): Node {
    match cond
    case None => Node(e.name, e.formName, e.stage, None, None, from)
    case Some(c) => Node(e.name, e.formName, e.stage, Some(c.text), Some(c.backText), from)
  }

  /**
   * The first `n` nodes emitted for the flattened cells, given the decoded
   * conditions `conds`: node `k` shows the entity of cell `2k`, is entered
   * over condition `k - 1`, and takes its `from` from its predecessor.
   */
  function Chain(cells: seq<Cell>, conds: seq<Condition>, n: nat): (nodes: seq<Node>)
    requires 2 * n <= |cells| + 1 && n <= |conds| + 1
    ensures |nodes| == n
  {
    if n == 0 then []
    else if n == 1 then [MakeNode(cells[0].entity, None, None)]
    else
      var prev := Chain(cells, conds, n - 1);
      var pred, cur := cells[2 * n - 4].entity, cells[2 * n - 2].entity;
      prev + [MakeNode(cur, Some(conds[n - 2]), NextFrom(pred, cur, prev[n - 2].from))]
  }

  /** The chain `get_single_evolution_chain` returns for a flattened cell sequence. */
  function ChainOf(cells: seq<Cell>): seq<Node> {
    Chain(cells, Conditions(cells), (|cells| + 1) / 2)
  }

  // ---------------------------------------------------------------------------
  // Node emission: properties

  /** The node after the first `n` extends them to the first `n + 1`. */
  lemma ChainStep(cells: seq<Cell>, conds: seq<Condition>, n: nat, node: Node)
    requires 0 < n && 2 * n + 1 <= |cells| && n <= |conds|
    requires node == MakeNode(cells[2 * n].entity, Some(conds[n - 1]),
                              NextFrom(cells[2 * n - 2].entity, cells[2 * n].entity, Chain(cells, conds, n)[n - 1].from))
    ensures Chain(cells, conds, n) + [node] == Chain(cells, conds, n + 1)
  {
  }

  /** Emitting fewer nodes gives a prefix of emitting more. */
  lemma {:induction false} ChainPrefix(cells: seq<Cell>, conds: seq<Condition>, m: nat, n: nat)
    requires m <= n && 2 * n <= |cells| + 1 && n <= |conds| + 1
    ensures Chain(cells, conds, m) == Chain(cells, conds, n)[..m]
    decreases n
  {
    if m < n {
      ChainPrefix(cells, conds, m, n - 1);
      assert Chain(cells, conds, n)[..n - 1] == Chain(cells, conds, n - 1);
    }
  }

  /**
   * Node `k` shows the entity of cell `2k` and is entered over condition
   * `k - 1` (the root over none, and without a `from`); a later node's
   * `from` follows from its predecessor's by `NextFrom`.
   */
  lemma ChainAt(cells: seq<Cell>, conds: seq<Condition>, n: nat, k: nat)
    requires k < n && 2 * n <= |cells| + 1 && n <= |conds| + 1
    ensures var nodes := Chain(cells, conds, n);
      && nodes[k] == MakeNode(cells[2 * k].entity, if k == 0 then None else Some(conds[k - 1]), nodes[k].from)
      && (k == 0 ==> nodes[k].from.None?)
      && (k > 0 ==> nodes[k].from == NextFrom(cells[2 * k - 2].entity, cells[2 * k].entity, nodes[k - 1].from))
  {
    ChainPrefix(cells, conds, k + 1, n);
    if k > 0 {
      ChainPrefix(cells, conds, k, k + 1);
    }
  }

  /**
   * The `from` rule between neighbouring nodes, whatever the conditions: a
   * stage change links to the predecessor; an equal stage outside the base
   * stages carries the predecessor's `from` forward; an equal base stage
   * links to nothing.
   */
  lemma ChainFromRule(cells: seq<Cell>, conds: seq<Condition>, n: nat, k: nat)
    requires 0 < k < n && 2 * n <= |cells| + 1 && n <= |conds| + 1
    ensures var nodes := Chain(cells, conds, n);
      && (nodes[k - 1].stage != nodes[k].stage ==> nodes[k].from == Some(nodes[k - 1].name))
      && (nodes[k - 1].stage == nodes[k].stage && !IsBaseStage(nodes[k].stage) ==>
            nodes[k].from == nodes[k - 1].from)
      && (nodes[k - 1].stage == nodes[k].stage && IsBaseStage(nodes[k].stage) ==>
            nodes[k].from.None?)
  {
    ChainAt(cells, conds, n, k);
    ChainAt(cells, conds, n, k - 1);
  }

  /** Every non-empty `from` equals the name of some earlier node of the same chain. */
  lemma {:induction false} ChainFromPointsBack(cells: seq<Cell>, conds: seq<Condition>, n: nat, k: nat)
    requires k < n && 2 * n <= |cells| + 1 && n <= |conds| + 1
    ensures var nodes := Chain(cells, conds, n);
      nodes[k].from.Some? ==> exists j :: 0 <= j < k && nodes[j].name == nodes[k].from.value
    decreases k
  {
    var nodes := Chain(cells, conds, n);
    ChainAt(cells, conds, n, k);
    if k > 0 && nodes[k].from.Some? {
      ChainAt(cells, conds, n, k - 1);
      if nodes[k].from == Some(nodes[k - 1].name) {
        assert nodes[k - 1].name == nodes[k].from.value;
      } else {
        assert nodes[k].from == nodes[k - 1].from;
        ChainFromPointsBack(cells, conds, n, k - 1);
      }
    }
  }

  /** The first `n` nodes read only the first `2n - 1` cells and the first `n - 1` conditions. */
  lemma {:induction false} ChainAgree(cells: seq<Cell>, conds: seq<Condition>,
                                      cells': seq<Cell>, conds': seq<Condition>, n: nat)
    requires 0 < n && 2 * n <= |cells| + 1 && n <= |conds| + 1 && 2 * n <= |cells'| + 1 && n <= |conds'| + 1
    requires cells[..2 * n - 1] == cells'[..2 * n - 1] && conds[..n - 1] == conds'[..n - 1]
    ensures Chain(cells, conds, n) == Chain(cells', conds', n)
    decreases n
  {
    if n > 1 {
      assert cells[..2 * n - 3] == cells[..2 * n - 1][..2 * n - 3];
      assert cells'[..2 * n - 3] == cells'[..2 * n - 1][..2 * n - 3];
      assert conds[..n - 2] == conds[..n - 1][..n - 2];
      assert conds'[..n - 2] == conds'[..n - 1][..n - 2];
      ChainAgree(cells, conds, cells', conds', n - 1);
      assert cells[2 * n - 4] == cells[..2 * n - 1][2 * n - 4];
      assert cells[2 * n - 2] == cells[..2 * n - 1][2 * n - 2];
      assert conds[n - 2] == conds[..n - 1][n - 2];
    } else {
      assert cells[0] == cells[..1][0];
    }
  }

  /**
   * The chain has (n+1)/2 nodes for n cells; node k is decoded from cell 2k;
   * the root has no `from`, text or back text; every later node takes its
   * texts from cell 2k-1.
   */
  lemma ChainNodeDecoded(cells: seq<Cell>, k: nat)
    requires 2 * k < |cells|
    ensures |ChainOf(cells)| == (|cells| + 1) / 2
    ensures var node, e := ChainOf(cells)[k], cells[2 * k].entity;
      && node.name == e.name && node.stage == e.stage && node.formName == e.formName
      && (k == 0 ==> node.text.None? && node.backText.None? && node.from.None?)
      && (k > 0 ==>
            var c := GetEvolutionCondition(cells[2 * k - 1].text);
            node.text == Some(c.text) && node.backText == Some(c.backText))
  {
    ChainAt(cells, Conditions(cells), (|cells| + 1) / 2, k);
  }

  /** A condition cell at the end of the sequence, with no entity after it, is ignored. */
  lemma TrailingConditionIgnored(cells: seq<Cell>, last: Cell)
    requires |cells| % 2 == 1
    ensures ChainOf(cells + [last]) == ChainOf(cells)
  {
    var ext, n := cells + [last], (|cells| + 1) / 2;
    assert ext[..2 * n - 1] == cells[..2 * n - 1];
    ConditionsOfExtension(cells, last);
    ChainAgree(ext, Conditions(ext), cells, Conditions(cells), n);
  }

  /** Appending a cell after a node cell keeps the conditions decoded so far. */
  lemma ConditionsOfExtension(cells: seq<Cell>, last: Cell)
    requires |cells| % 2 == 1
    ensures var n := (|cells| + 1) / 2;
      Conditions(cells + [last])[..n - 1] == Conditions(cells)[..n - 1]
  {
    var ext, n := cells + [last], (|cells| + 1) / 2;
    assert ConditionTexts(ext)[..n - 1] == ConditionTexts(cells);
    MapSeqPrefix(GetEvolutionCondition, ConditionTexts(ext), n - 1);
    assert Conditions(cells)[..n - 1] == Conditions(cells);
  }

  // ---------------------------------------------------------------------------
  // get_single_evolution_chain

  /** The first loop of `get_single_evolution_chain`: all direct cells of the rows, row by row. */
  method CollectCells(rows: seq<seq<Cell>>) returns (allCells: seq<Cell>)
    ensures allCells == Flatten(rows)
  {
    allCells := [];
    for r := 0 to |rows|
      invariant allCells == Flatten(rows[..r])
    {
      var row := rows[r];
      for c := 0 to |row|
        invariant allCells == Flatten(rows[..r]) + row[..c]
      {
        allCells := allCells + [row[c]];
      }
      assert rows[..r + 1][..r] == rows[..r];
    }
    assert rows[..|rows|] == rows;
  }

  /**
   * The body of `get_single_evolution_chain`'s loop at an even position
   * `index > 0`: decodes the condition cell before it and links the entity to
   * its layout predecessor, given the node emitted last.
   */
  method EntityNode(allCells: seq<Cell>, index: nat, last: Node) returns (node: Node)
    requires 2 <= index < |allCells| && index % 2 == 0
    ensures var pred, cur := allCells[index - 2].entity, allCells[index].entity;
      node == MakeNode(cur, Some(Conditions(allCells)[index / 2 - 1]), NextFrom(pred, cur, last.from))
  {
    var condition := GetEvolutionCondition(allCells[index - 1].text);
    var res := allCells[index].entity;
    var fromRes := allCells[index - 2].entity;
    var from: Option<string> := None;
    if fromRes.stage != res.stage {
      from := Some(fromRes.name);
    }
    if fromRes.stage == res.stage && res.stage != Unevolved && res.stage != Baby {
      from := last.from;
    }
    node := Node(res.name, res.formName, res.stage, Some(condition.text), Some(condition.backText), from);
  }

  /** With `n` nodes emitted before position `index`, the position is even exactly when it is `2n`. */
  lemma EvenPosition(index: nat, n: nat)
    requires index <= 2 * n <= index + 1
    ensures index % 2 == 0 <==> index == 2 * n
  {
  }

  /**
   * One iteration of `get_single_evolution_chain`'s loop over the cells: the
   * root at position 0, an entity node at every later even position, nothing
   * at odd positions.
   */
  method EmitAt(allCells: seq<Cell>, index: nat, nodes: seq<Node>) returns (nodes': seq<Node>)
    requires index < |allCells| && index <= 2 * |nodes| <= index + 1
    requires nodes == Chain(allCells, Conditions(allCells), |nodes|)
    ensures index + 1 <= 2 * |nodes'| <= index + 2
    ensures nodes' == Chain(allCells, Conditions(allCells), |nodes'|)
  {
    EvenPosition(index, |nodes|);
    if index == 0 {
      var res := allCells[index].entity;
      nodes' := nodes + [Node(res.name, res.formName, res.stage, None, None, None)];
    } else if index % 2 == 0 {
      var node := EntityNode(allCells, index, nodes[|nodes| - 1]);
      ghost var n := |nodes|;
      ChainStep(allCells, Conditions(allCells), n, node);
      nodes' := nodes + [node];
    } else {
      nodes' := nodes;
    }
  }

  /**
   * `get_single_evolution_chain`: flattens the rows into one cell sequence
   * and emits a node for every even position.
   */
  method GetSingleEvolutionChain(rows: seq<seq<Cell>>) returns (nodes: seq<Node>)
    ensures nodes == ChainOf(Flatten(rows))
  {
    var allCells := CollectCells(rows);
    nodes := [];
    for index := 0 to |allCells|
      invariant index <= 2 * |nodes| <= index + 1
      invariant nodes == Chain(allCells, Conditions(allCells), |nodes|)
    {
      nodes := EmitAt(allCells, index, nodes);
    }
  }

  // ---------------------------------------------------------------------------
  // has_multiple_forms and split_form_tr_list

  /** How many of the labels are a base stage. */
  function BaseLabelCount(labels: seq<string>): nat {
    if labels == [] then 0
    else BaseLabelCount(labels[..|labels| - 1]) + (if IsBaseStage(labels[|labels| - 1]) then 1 else 0)
  }

  /** Two different labels of the table are base stages: the table stacks two lineages. */
  predicate MultipleBaseForms(labels: seq<string>) {
    exists i, j :: 0 <= i < j < |labels| && IsBaseStage(labels[i]) && IsBaseStage(labels[j])
  }

  lemma {:induction false} BaseLabelCountPositive(labels: seq<string>)
    ensures BaseLabelCount(labels) > 0 <==> exists i :: 0 <= i < |labels| && IsBaseStage(labels[i])
  {
    if labels != [] {
      var init := labels[..|labels| - 1];
      BaseLabelCountPositive(init);
      if exists i :: 0 <= i < |init| && IsBaseStage(init[i]) {
        var i :| 0 <= i < |init| && IsBaseStage(init[i]);
        assert labels[i] == init[i];
      }
      if exists i :: 0 <= i < |labels| && IsBaseStage(labels[i]) {
        var i :| 0 <= i < |labels| && IsBaseStage(labels[i]);
        if i < |init| { assert init[i] == labels[i]; }
      }
    }
  }

  /** Counting more than one base label is the same as finding two of them. */
  lemma {:induction false} BaseLabelCountMultiple(labels: seq<string>)
    ensures BaseLabelCount(labels) > 1 <==> MultipleBaseForms(labels)
  {
    if labels != [] {
      var init, last := labels[..|labels| - 1], labels[|labels| - 1];
      BaseLabelCountMultiple(init);
      BaseLabelCountPositive(init);
      if MultipleBaseForms(init) {
        var i, j :| 0 <= i < j < |init| && IsBaseStage(init[i]) && IsBaseStage(init[j]);
        assert labels[i] == init[i] && labels[j] == init[j];
      }
      if IsBaseStage(last) && BaseLabelCount(init) > 0 {
        var i :| 0 <= i < |init| && IsBaseStage(init[i]);
        assert labels[i] == init[i];
        assert IsBaseStage(labels[|labels| - 1]);
      }
      if MultipleBaseForms(labels) {
        var i, j :| 0 <= i < j < |labels| && IsBaseStage(labels[i]) && IsBaseStage(labels[j]);
        assert labels[i] == init[i];
        if j < |init| { assert labels[j] == init[j]; }
      }
    }
  }

  /** Counts the base-stage labels of the evolution table, as `has_multiple_forms` does. */
  method HasMultipleForms(labels: seq<string>) returns (multiple: bool)
    ensures multiple <==> MultipleBaseForms(labels)
  {
    var flagCount := 0;
    for k := 0 to |labels|
      invariant flagCount == BaseLabelCount(labels[..k])
    {
      var stage := labels[k];
      if stage == Unevolved || stage == Baby {
        flagCount := flagCount + 1;
      }
      assert labels[..k + 1][..k] == labels[..k];
    }
    assert labels[..|labels|] == labels;
    BaseLabelCountMultiple(labels);
    multiple := flagCount > 1;
  }

  /**
   * Bisects the rows into two halves of `|rows| / 2` rows each; for an odd
   * number of rows the single middle row is dropped.
   */
  function SplitFormTrList<T>(rows: seq<T>): (halves: (seq<T>, seq<T>))
    ensures |halves.0| == |rows| / 2 && |halves.1| == |rows| / 2
    ensures |rows| % 2 == 0 ==> halves.0 + halves.1 == rows
    ensures |rows| % 2 == 1 ==> halves.0 + [rows[|rows| / 2]] + halves.1 == rows
  {
    var middle := |rows| / 2;
    if |rows| % 2 == 0 then (rows[..middle], rows[middle..])
    else (rows[..middle], rows[middle + 1..])
  }

  // ---------------------------------------------------------------------------
  // get_evolution_chains

  /** The sentinel returned for a species without an evolution heading. */
  function Sentinel(name: string): Node {
    Node(name, None, DoesNotEvolve, None, None, None)
  }

  /**
   * `get_evolution_chains`: `hasHeading` says whether the page has an
   * evolution heading; `labels` and `rows` describe the evolution table.
   */
  method GetEvolutionChains(name: string, hasHeading: bool, labels: seq<string>, rows: seq<seq<Cell>>)
    returns (result: EvolutionChains)
    ensures !hasHeading ==> result == NoEvolution(Node(name, None, DoesNotEvolve, None, None, None))
    ensures hasHeading ==> result.Chains?
    ensures hasHeading && MultipleBaseForms(labels) ==>
      var halves := SplitFormTrList(rows);
      result.chains == [ChainOf(Flatten(halves.0)), ChainOf(Flatten(halves.1))]
    ensures hasHeading && !MultipleBaseForms(labels) ==>
      result.chains == [ChainOf(Flatten(rows))]
  {
    if !hasHeading {
      return NoEvolution(Sentinel(name));
    }
    var multiple := HasMultipleForms(labels);
    var formTrList := if multiple then var halves := SplitFormTrList(rows); [halves.0, halves.1] else [rows];
    var chains: seq<seq<Node>> := [];
    for g := 0 to |formTrList|
      invariant |chains| == g
      invariant forall k :: 0 <= k < g ==> chains[k] == ChainOf(Flatten(formTrList[k]))
    {
      var chain := GetSingleEvolutionChain(formTrList[g]);
      chains := chains + [chain];
    }
    result := Chains(chains);
  }
}
