/**
 * The import script for the FAQ training data: spreadsheet rows are split
 * into blocks by a key column (a row with a non-empty key opens a block,
 * rows with an empty key continue it) and stored in a dictionary, where a
 * key that opens a second block keeps its first place but takes the later
 * block. The block stored under the `/bfz` intention is split again by context;
 * every stored block whose first row has a question becomes one question
 * with its variants and answer, in the dictionary's order, and the
 * questions are shaped into retrieval-intent examples and responses.
 */
module ImportQuestions {
  import opened Strings
  import opened Dicts

  /** One spreadsheet row: the five columns the script reads. */
  datatype Row = Row(
    intention: string,
    context: string,
    question: string,
    questionVariant: string,
    answer: string)

  /** The column names `getattr(r, col)` may be asked for. */
  datatype Column = IntentionColumn | ContextColumn | QuestionColumn | VariantColumn | AnswerColumn

  function Cell(r: Row, col: Column): string
  {
    match col
    case IntentionColumn => r.intention
    case ContextColumn => r.context
    case QuestionColumn => r.question
    case VariantColumn => r.questionVariant
    case AnswerColumn => r.answer
  }

  /** A block of rows under its key: an item of the grouping dictionary. */
  type Group = (string, seq<Row>)

  // ---------------------------------------------------------------------
  // Grouping rows by a key column
  // ---------------------------------------------------------------------

  /**
   * The blocks of `rows`, in order: every row with a non-empty key opens a
   * new block under that key, every row with an empty key joins the block
   * before it, and rows before the first keyed row join nothing.
   */
  function Blocks(rows: seq<Row>, col: Column): seq<Group>
    decreases |rows|
  {
    if rows == [] then []
    else
      var prev := Blocks(rows[..|rows| - 1], col);
      var r := rows[|rows| - 1];
      if Cell(r, col) != "" then prev + [(Cell(r, col), [r])]
      else if prev == [] then []
      else prev[..|prev| - 1] + [(prev[|prev| - 1].0, prev[|prev| - 1].1 + [r])]
  }

  /** The blocks assigned into a dictionary one after the other. */
  function Store(bs: seq<Group>): (d: Dict<string, seq<Row>>)
    ensures Valid(d)
  {
    if bs == [] then Empty()
    else Set(Store(bs[..|bs| - 1]), bs[|bs| - 1].0, bs[|bs| - 1].1)
  }

  /** What `group_by_column(rows, col)` returns. */
  function Grouped(rows: seq<Row>, col: Column): (d: Dict<string, seq<Row>>)
    ensures Valid(d)
  {
    Store(Blocks(rows, col))
  }

  /** The rows of all groups, one group after the other. */
  function Concatenation(gs: seq<Group>): seq<Row>
  {
    if gs == [] then [] else Concatenation(gs[..|gs| - 1]) + gs[|gs| - 1].1
  }

  /** A block opens with a row carrying its key and goes on with unkeyed rows. */
  predicate WellFormed(g: Group, col: Column)
  {
    |g.1| >= 1 && g.0 != "" && Cell(g.1[0], col) == g.0 &&
    forall j :: 1 <= j < |g.1| ==> Cell(g.1[j], col) == ""
  }

  /** The number of rows before the first row with a non-empty key. */
  function LeadingOrphans(rows: seq<Row>, col: Column): (n: nat)
    ensures n <= |rows|
    ensures forall j :: 0 <= j < n ==> Cell(rows[j], col) == ""
    ensures n < |rows| ==> Cell(rows[n], col) != ""
  {
    if rows == [] || Cell(rows[0], col) != "" then 0
    else 1 + LeadingOrphans(rows[1..], col)
  }

  /**
   * The loop of `group_by_column`: `currentVal` is the key of the open
   * block (None before the first keyed row), `current` its rows, and the
   * dictionary receives a block when the next one opens and at the end.
   */
  method GroupByColumn(rows: seq<Row>, col: Column) returns (groups: Dict<string, seq<Row>>)
    ensures Valid(groups)
    ensures groups == Grouped(rows, col)
  {
    groups := Empty();
    var currentVal: Option<string> := None;
    var current: seq<Row> := [];
    for i := 0 to |rows|
      invariant Tracks(Blocks(rows[..i], col), currentVal, current, groups)
    {
      assert rows[..i + 1] == rows[..i] + [rows[i]];
      groups, currentVal, current := ReadRow(groups, currentVal, current, rows[i], col, rows[..i]);
    }
    assert rows[..|rows|] == rows;
    groups := CloseBlock(groups, currentVal, current, Blocks(rows, col));
  }

  /**
   * The loop's state after the rows whose blocks are `bs`: the blocks
   * before the open one are in the dictionary, and the open one is
   * `currentVal` with the rows `current`.
   */
  predicate Tracks(bs: seq<Group>, currentVal: Option<string>, current: seq<Row>,
                   groups: Dict<string, seq<Row>>)
  {
    && Valid(groups)
    && (currentVal.None? ==> bs == [] && groups == Empty())
    && (currentVal.Some? ==>
          |bs| > 0 && bs[|bs| - 1] == (currentVal.value, current) && groups == Store(bs[..|bs| - 1]))
  }

  /**
   * One pass of the loop on row `r`: a keyed row closes the open block and
   * opens its own; an unkeyed row joins the open block, or, before the
   * first key, the leading rows that are never stored.
   */
  method ReadRow(groups: Dict<string, seq<Row>>, currentVal: Option<string>, current: seq<Row>,
                 r: Row, col: Column, ghost p: seq<Row>)
    returns (groups': Dict<string, seq<Row>>, currentVal': Option<string>, current': seq<Row>)
    requires Tracks(Blocks(p, col), currentVal, current, groups)
    ensures Tracks(Blocks(p + [r], col), currentVal', current', groups')
    ensures currentVal' == if Cell(r, col) != "" then Some(Cell(r, col)) else currentVal
  {
    ghost var bs := Blocks(p, col);
    if Cell(r, col) != "" {
      groups' := CloseBlock(groups, currentVal, current, bs);
      KeyedStep(p, r, col);
      assert (bs + [(Cell(r, col), [r])])[..|bs|] == bs;
      currentVal', current' := Some(Cell(r, col)), [r];
    } else {
      if currentVal.Some? {
        UnkeyedInBlock(p, r, col);
      } else {
        UnkeyedOrphan(p, r, col);
      }
      groups', currentVal', current' := groups, currentVal, current + [r];
    }
  }

  /**
   * Assigning the open block, if there is one, under its key: afterwards
   * the dictionary holds every block read so far.
   */
  method CloseBlock(groups: Dict<string, seq<Row>>, currentVal: Option<string>, current: seq<Row>,
                    ghost bs: seq<Group>)
    returns (closed: Dict<string, seq<Row>>)
    requires Tracks(bs, currentVal, current, groups)
    ensures Valid(closed) && closed == Store(bs)
  {
    if currentVal.Some? {
      StoreLast(bs);
      closed := Set(groups, currentVal.value, current);
    } else {
      closed := groups;
    }
  }

  /** Storing the blocks ends with assigning the last one. */
  lemma StoreLast(bs: seq<Group>)
    requires bs != []
    ensures Store(bs) == Set(Store(bs[..|bs| - 1]), bs[|bs| - 1].0, bs[|bs| - 1].1)
  {
  }

  // The four cases of one loop step, on the blocks of the rows seen so far.

  lemma KeyedStep(p: seq<Row>, r: Row, col: Column)
    requires Cell(r, col) != ""
    ensures Blocks(p + [r], col) == Blocks(p, col) + [(Cell(r, col), [r])]
  {
    BlocksStep(p, r, col);
  }

  lemma UnkeyedInBlock(p: seq<Row>, r: Row, col: Column)
    requires Blocks(p, col) != [] && Cell(r, col) == ""
    ensures var bs := Blocks(p, col);
            var bs' := Blocks(p + [r], col);
            |bs'| == |bs| && bs'[|bs| - 1] == (bs[|bs| - 1].0, bs[|bs| - 1].1 + [r]) &&
            bs'[..|bs| - 1] == bs[..|bs| - 1]
  {
    var bs := Blocks(p, col);
    BlocksStep(p, r, col);
    assert (bs[..|bs| - 1] + [(bs[|bs| - 1].0, bs[|bs| - 1].1 + [r])])[..|bs| - 1] == bs[..|bs| - 1];
  }

  lemma UnkeyedOrphan(p: seq<Row>, r: Row, col: Column)
    requires Blocks(p, col) == [] && Cell(r, col) == ""
    ensures Blocks(p + [r], col) == []
  {
    BlocksStep(p, r, col);
  }

  lemma {:induction false} LeadingOrphansAppend(p: seq<Row>, r: Row, col: Column)
    ensures LeadingOrphans(p + [r], col) ==
      if LeadingOrphans(p, col) < |p| then LeadingOrphans(p, col)
      else if Cell(r, col) != "" then |p| else |p| + 1
  {
    if p != [] && Cell(p[0], col) == "" {
      assert (p + [r])[1..] == p[1..] + [r];
      LeadingOrphansAppend(p[1..], r, col);
    }
  }

  /** There is no block exactly when no row has a key. */
  lemma {:induction false} NoBlocks(rows: seq<Row>, col: Column)
    ensures Blocks(rows, col) == [] <==> LeadingOrphans(rows, col) == |rows|
    decreases |rows|
  {
    if rows != [] {
      var p := rows[..|rows| - 1];
      assert p + [rows[|rows| - 1]] == rows;
      NoBlocks(p, col);
      LeadingOrphansAppend(p, rows[|rows| - 1], col);
    }
  }

  /** Every block starts with a keyed row followed only by unkeyed rows. */
  lemma {:induction false} BlocksShape(rows: seq<Row>, col: Column)
    ensures forall i :: 0 <= i < |Blocks(rows, col)| ==> WellFormed(Blocks(rows, col)[i], col)
    decreases |rows|
  {
    if rows != [] {
      BlocksShape(rows[..|rows| - 1], col);
    }
  }

  /** One row more: the step `Blocks` is defined by. */
  lemma BlocksStep(p: seq<Row>, r: Row, col: Column)
    ensures Blocks(p + [r], col) ==
      var prev := Blocks(p, col);
      if Cell(r, col) != "" then prev + [(Cell(r, col), [r])]
      else if prev == [] then []
      else prev[..|prev| - 1] + [(prev[|prev| - 1].0, prev[|prev| - 1].1 + [r])]
  {
    assert (p + [r])[..|p + [r]| - 1] == p;
  }

  lemma ConcatenationStep(gs: seq<Group>, g: Group)
    ensures Concatenation(gs + [g]) == Concatenation(gs) + g.1
  {
    assert (gs + [g])[..|gs + [g]| - 1] == gs;
  }

  /**
   * Leading unkeyed rows belong to no block, and the blocks in order
   * concatenate to the rest of the input.
   */
  lemma {:induction false} BlocksCoverInput(rows: seq<Row>, col: Column)
    ensures Concatenation(Blocks(rows, col)) == rows[LeadingOrphans(rows, col)..]
    decreases |rows|
  {
    if rows != [] {
      var p := rows[..|rows| - 1];
      var r := rows[|rows| - 1];
      assert p + [r] == rows;
      BlocksCoverInput(p, col);
      CoverStep(p, r, col);
    }
  }

  lemma CoverStep(p: seq<Row>, r: Row, col: Column)
    requires Concatenation(Blocks(p, col)) == p[LeadingOrphans(p, col)..]
    ensures Concatenation(Blocks(p + [r], col)) == (p + [r])[LeadingOrphans(p + [r], col)..]
  {
    LeadingOrphansAppend(p, r, col);
    NoBlocks(p, col);
    if Cell(r, col) != "" {
      CoverStepKeyed(p, r, col);
    } else if Blocks(p, col) != [] {
      CoverStepUnkeyed(p, r, col);
    } else {
      UnkeyedOrphan(p, r, col);
    }
  }

  lemma CoverStepKeyed(p: seq<Row>, r: Row, col: Column)
    requires Concatenation(Blocks(p, col)) == p[LeadingOrphans(p, col)..]
    requires Cell(r, col) != ""
    ensures Concatenation(Blocks(p + [r], col)) == (p + [r])[LeadingOrphans(p, col)..]
  {
    KeyedStep(p, r, col);
    ConcatenationStep(Blocks(p, col), (Cell(r, col), [r]));
    SliceAppend(p, r, LeadingOrphans(p, col));
  }

  lemma SliceAppend(p: seq<Row>, r: Row, m: nat)
    requires m <= |p|
    ensures (p + [r])[m..] == p[m..] + [r]
  {
  }

  lemma CoverStepUnkeyed(p: seq<Row>, r: Row, col: Column)
    requires Concatenation(Blocks(p, col)) == p[LeadingOrphans(p, col)..]
    requires Cell(r, col) == "" && Blocks(p, col) != []
    ensures Concatenation(Blocks(p + [r], col)) == (p + [r])[LeadingOrphans(p, col)..]
  {
    BlocksStep(p, r, col);
    ExtendLastBlock(Blocks(p, col), r);
    SliceAppend(p, r, LeadingOrphans(p, col));
  }

  /** Appending a row to the last block appends it to the concatenation. */
  lemma ExtendLastBlock(gs: seq<Group>, r: Row)
    requires gs != []
    ensures Concatenation(gs[..|gs| - 1] + [(gs[|gs| - 1].0, gs[|gs| - 1].1 + [r])]) == Concatenation(gs) + [r]
  {
    var init := gs[..|gs| - 1];
    var last := gs[|gs| - 1];
    ConcatenationStep(init, (last.0, last.1 + [r]));
    var c := Concatenation(init);
    assert Concatenation(gs) == c + last.1;
    assert c + (last.1 + [r]) == (c + last.1) + [r];
  }

  /** Some block of `bs` has the key `k`. */
  predicate HasBlockKey(bs: seq<Group>, k: string)
  {
    exists i :: 0 <= i < |bs| && bs[i].0 == k
  }

  /** Some row of `rows` has `k` in column `col`. */
  predicate HasCell(rows: seq<Row>, col: Column, k: string)
  {
    exists j :: 0 <= j < |rows| && Cell(rows[j], col) == k
  }

  lemma HasCellAppend(p: seq<Row>, r: Row, col: Column, k: string)
    ensures HasCell(p + [r], col, k) <==> HasCell(p, col, k) || Cell(r, col) == k
  {
    var rows := p + [r];
    if HasCell(p, col, k) {
      var j :| 0 <= j < |p| && Cell(p[j], col) == k;
      assert rows[j] == p[j];
    }
    if HasCell(rows, col, k) {
      var j :| 0 <= j < |rows| && Cell(rows[j], col) == k;
      if j < |p| {
        assert rows[j] == p[j];
      }
    }
    if Cell(r, col) == k {
      assert rows[|p|] == r;
    }
  }

  lemma HasBlockKeyAppend(bs: seq<Group>, g: Group, k: string)
    ensures HasBlockKey(bs + [g], k) <==> HasBlockKey(bs, k) || g.0 == k
  {
    var ext := bs + [g];
    if HasBlockKey(bs, k) {
      var i :| 0 <= i < |bs| && bs[i].0 == k;
      assert ext[i] == bs[i];
    }
    if HasBlockKey(ext, k) {
      var i :| 0 <= i < |ext| && ext[i].0 == k;
      if i < |bs| {
        assert ext[i] == bs[i];
      }
    }
    if g.0 == k {
      assert ext[|bs|] == g;
    }
  }

  lemma HasBlockKeyExtend(bs: seq<Group>, r: Row, k: string)
    requires bs != []
    ensures HasBlockKey(bs[..|bs| - 1] + [(bs[|bs| - 1].0, bs[|bs| - 1].1 + [r])], k) <==> HasBlockKey(bs, k)
  {
    var init := bs[..|bs| - 1];
    var last := bs[|bs| - 1];
    assert bs == init + [last];
    HasBlockKeyAppend(init, last, k);
    HasBlockKeyAppend(init, (last.0, last.1 + [r]), k);
  }

  /** The blocks are opened exactly by the keyed rows. */
  lemma {:induction false} BlockKeys(rows: seq<Row>, col: Column, k: string)
    ensures HasBlockKey(Blocks(rows, col), k) <==> k != "" && HasCell(rows, col, k)
    decreases |rows|
  {
    if rows != [] {
      var p := rows[..|rows| - 1];
      assert p + [rows[|rows| - 1]] == rows;
      BlockKeys(p, col, k);
      BlockKeysStep(p, rows[|rows| - 1], col, k);
    }
  }

  lemma BlockKeysStep(p: seq<Row>, r: Row, col: Column, k: string)
    requires HasBlockKey(Blocks(p, col), k) <==> k != "" && HasCell(p, col, k)
    ensures HasBlockKey(Blocks(p + [r], col), k) <==> k != "" && HasCell(p + [r], col, k)
  {
    var prev := Blocks(p, col);
    HasCellAppend(p, r, col, k);
    BlocksStep(p, r, col);
    if Cell(r, col) != "" {
      HasBlockKeyAppend(prev, (Cell(r, col), [r]), k);
    } else if prev != [] {
      HasBlockKeyExtend(prev, r, k);
    } else {
      NoBlocks(p, col);
      if HasCell(p, col, k) {
        var j :| 0 <= j < |p| && Cell(p[j], col) == k;
      }
    }
  }

  lemma {:induction false} StoreKeys(bs: seq<Group>, k: string)
    ensures k in Store(bs).values <==> exists i :: 0 <= i < |bs| && bs[i].0 == k
    decreases |bs|
  {
    if bs != [] {
      var p := bs[..|bs| - 1];
      StoreKeys(p, k);
      assert forall i :: 0 <= i < |p| ==> bs[i] == p[i];
    }
  }

  /** `bs[i]` is the last group with key `k`. */
  predicate LastWithKey(bs: seq<Group>, i: int, k: string)
  {
    0 <= i < |bs| && bs[i].0 == k && forall j :: i < j < |bs| ==> bs[j].0 != k
  }

  /** The value stored under a key is the last block with that key. */
  lemma {:induction false} StoreLastWins(bs: seq<Group>, k: string)
    requires k in Store(bs).values
    ensures exists i :: LastWithKey(bs, i, k) && Store(bs).values[k] == bs[i].1
    decreases |bs|
  {
    var p := bs[..|bs| - 1];
    var last := bs[|bs| - 1];
    if last.0 == k {
      StoreLast(bs);
      assert LastWithKey(bs, |bs| - 1, k);
    } else {
      StoreOther(bs, k);
      StoreLastWins(p, k);
      var i :| LastWithKey(p, i, k) && Store(p).values[k] == p[i].1;
      assert p + [last] == bs;
      LastWithKeyAppend(p, last, i, k);
    }
  }

  lemma LastWithKeyAppend(p: seq<Group>, g: Group, i: int, k: string)
    requires LastWithKey(p, i, k) && g.0 != k
    ensures LastWithKey(p + [g], i, k) && (p + [g])[i] == p[i]
  {
  }

  /** A block with another key leaves what is stored under `k` as it was. */
  lemma StoreOther(bs: seq<Group>, k: string)
    requires bs != [] && bs[|bs| - 1].0 != k
    ensures var p := Store(bs[..|bs| - 1]);
            (k in Store(bs).values <==> k in p.values) && (k in p.values ==> Store(bs).values[k] == p.values[k])
  {
    StoreLast(bs);
  }

  /** The keys of the groups, in order. */
  function KeysOf(gs: seq<Group>): (ks: seq<string>)
    ensures |ks| == |gs| && forall i :: 0 <= i < |gs| ==> ks[i] == gs[i].0
  {
    seq(|gs|, i requires 0 <= i < |gs| => gs[i].0)
  }

  lemma StoreStep(bs: seq<Group>, g: Group)
    ensures Store(bs + [g]) == Set(Store(bs), g.0, g.1)
  {
    assert (bs + [g])[..|bs + [g]| - 1] == bs;
  }

  lemma StoreDistinctStep(p: seq<Group>, g: Group)
    requires Items(Store(p)) == p
    requires g.0 !in Store(p).values
    ensures Items(Store(p + [g])) == p + [g]
  {
    StoreStep(p, g);
    ItemsSetNew(Store(p), g.0, g.1);
  }

  /** With distinct keys the dictionary holds exactly the blocks, in order. */
  lemma {:induction false} StoreDistinct(bs: seq<Group>)
    requires Distinct(KeysOf(bs))
    ensures Items(Store(bs)) == bs
    decreases |bs|
  {
    if bs != [] {
      var p := bs[..|bs| - 1];
      var last := bs[|bs| - 1];
      assert p + [last] == bs;
      assert Distinct(KeysOf(p)) by {
        assert forall i :: 0 <= i < |p| ==> KeysOf(p)[i] == KeysOf(bs)[i];
      }
      StoreDistinct(p);
      StoreKeys(p, last.0);
      StoreDistinctStep(p, last);
    }
  }

  /** The keys of the result are exactly the non-empty key cells of the input. */
  lemma GroupedKeys(rows: seq<Row>, col: Column, k: string)
    ensures k in Grouped(rows, col).values <==>
            k != "" && exists j :: 0 <= j < |rows| && Cell(rows[j], col) == k
  {
    assert Grouped(rows, col) == Store(Blocks(rows, col));
    StoreKeys(Blocks(rows, col), k);
    BlockKeys(rows, col, k);
  }

  /** A key that opens several blocks keeps the rows of the last of them. */
  lemma LaterBlockWins(rows: seq<Row>, col: Column, k: string)
    requires k in Grouped(rows, col).values
    ensures exists i :: LastWithKey(Blocks(rows, col), i, k) && Grouped(rows, col).values[k] == Blocks(rows, col)[i].1
  {
    var bs := Blocks(rows, col);
    assert Grouped(rows, col) == Store(bs);
    StoreLastWins(bs, k);
  }

  /**
   * Every stored group starts with the row carrying its key, every later
   * row of it has an empty key, and it holds rows of one block.
   */
  lemma GroupShape(rows: seq<Row>, col: Column)
    ensures forall k :: k in Grouped(rows, col).values ==> WellFormed((k, Grouped(rows, col).values[k]), col)
  {
    BlocksShape(rows, col);
    forall k | k in Grouped(rows, col).values
      ensures WellFormed((k, Grouped(rows, col).values[k]), col)
    {
      LaterBlockWins(rows, col, k);
    }
  }

  /** Keyed cells are distinct: no key opens two blocks. */
  predicate KeysDistinct(rows: seq<Row>, col: Column)
  {
    forall i, j :: 0 <= i < j < |rows| && Cell(rows[i], col) != "" ==> Cell(rows[i], col) != Cell(rows[j], col)
  }

  lemma {:induction false} DistinctBlockKeys(rows: seq<Row>, col: Column)
    requires KeysDistinct(rows, col)
    ensures Distinct(KeysOf(Blocks(rows, col)))
    decreases |rows|
  {
    if rows != [] {
      var p := rows[..|rows| - 1];
      var r := rows[|rows| - 1];
      assert p + [r] == rows;
      assert KeysDistinct(p, col) by {
        assert forall j :: 0 <= j < |p| ==> p[j] == rows[j];
      }
      DistinctBlockKeys(p, col);
      if Cell(r, col) != "" {
        assert forall j :: 0 <= j < |p| ==> Cell(p[j], col) != Cell(r, col) by {
          assert forall j :: 0 <= j < |p| ==> p[j] == rows[j];
        }
        DistinctKeyedStep(p, r, col);
      } else {
        DistinctUnkeyedStep(p, r, col);
      }
    }
  }

  lemma DistinctKeyedStep(p: seq<Row>, r: Row, col: Column)
    requires Distinct(KeysOf(Blocks(p, col)))
    requires Cell(r, col) != ""
    requires forall j :: 0 <= j < |p| ==> Cell(p[j], col) != Cell(r, col)
    ensures Distinct(KeysOf(Blocks(p + [r], col)))
  {
    var prev := Blocks(p, col);
    BlocksStep(p, r, col);
    forall i | 0 <= i < |prev|
      ensures prev[i].0 != Cell(r, col)
    {
      BlockKeys(p, col, prev[i].0);
    }
    assert KeysOf(Blocks(p + [r], col)) == KeysOf(prev) + [Cell(r, col)];
  }

  lemma DistinctUnkeyedStep(p: seq<Row>, r: Row, col: Column)
    requires Distinct(KeysOf(Blocks(p, col)))
    requires Cell(r, col) == ""
    ensures Distinct(KeysOf(Blocks(p + [r], col)))
  {
    var prev := Blocks(p, col);
    BlocksStep(p, r, col);
    if prev != [] {
      assert KeysOf(Blocks(p + [r], col)) == KeysOf(prev);
    }
  }

  /**
   * When no key opens two blocks, the groups in order concatenate to the
   * input without its leading unkeyed rows, so they hold at most all rows.
   */
  lemma GroupsPartitionInput(rows: seq<Row>, col: Column)
    requires KeysDistinct(rows, col)
    ensures Items(Grouped(rows, col)) == Blocks(rows, col)
    ensures Concatenation(Items(Grouped(rows, col))) == rows[LeadingOrphans(rows, col)..]
    ensures |Concatenation(Items(Grouped(rows, col)))| <= |rows|
  {
    DistinctBlockKeys(rows, col);
    StoreDistinct(Blocks(rows, col));
    BlocksCoverInput(rows, col);
  }

  // ---------------------------------------------------------------------
  // Questions
  // ---------------------------------------------------------------------

  /** One FAQ entry: its intent name, the question, its variants, the answer. */
  datatype Question = Question(intent: string, question: string, questionVariants: seq<string>, answer: string)

  /** The non-empty `question_variant`s of `rows`, in row order. */
  function NonEmptyVariants(rows: seq<Row>): (vs: seq<string>)
    ensures |vs| <= |rows|
    ensures forall v :: v in vs <==> v != "" && exists j :: 0 <= j < |rows| && rows[j].questionVariant == v
    decreases |rows|
  {
    if rows == [] then []
    else
      var vs := NonEmptyVariants(rows[..|rows| - 1]);
      var r := rows[|rows| - 1];
      assert forall j :: 0 <= j < |rows| - 1 ==> rows[..|rows| - 1][j] == rows[j];
      if r.questionVariant != "" then vs + [r.questionVariant] else vs
  }

  /** Collecting variants commutes with splitting the rows: row order is kept. */
  lemma {:induction false} VariantsAppend(a: seq<Row>, b: seq<Row>)
    ensures NonEmptyVariants(a + b) == NonEmptyVariants(a) + NonEmptyVariants(b)
    decreases |b|
  {
    if b != [] {
      var b' := b[..|b| - 1];
      assert (a + b)[..|a + b| - 1] == a + b';
      VariantsAppend(a, b');
    } else {
      assert a + b == a;
    }
  }

  /** The question built from one group: `bfz_` plus the key after its first character. */
  function ToQuestion(g: Group): (q: Question)
    requires |g.1| > 0
    ensures |q.intent| == 4 + |Drop1(g.0)|
    ensures q.intent[..4] == "bfz_" && q.intent[4..] == Drop1(g.0)
    ensures q.question == g.1[0].question && q.answer == g.1[0].answer
    ensures q.questionVariants == NonEmptyVariants(g.1)
  {
    Question("bfz_" + Drop1(g.0), g.1[0].question, NonEmptyVariants(g.1), g.1[0].answer)
  }

  /**
   * The `questions` comprehension: one question per group whose first row
   * has a non-empty question, in group order.
   */
  function Questions(items: seq<Group>): (qs: seq<Question>)
    requires forall i :: 0 <= i < |items| ==> |items[i].1| > 0
    ensures |qs| <= |items|
    decreases |items|
  {
    if items == [] then []
    else
      var rest := Questions(items[1..]);
      assert forall i :: 1 <= i < |items| ==> items[i] == items[1..][i - 1];
      if items[0].1[0].question != "" then [ToQuestion(items[0])] + rest else rest
  }

  /** The questions are exactly those of the groups whose first row has a question. */
  lemma {:induction false} QuestionsMembers(items: seq<Group>)
    requires forall i :: 0 <= i < |items| ==> |items[i].1| > 0
    ensures forall i :: 0 <= i < |items| && items[i].1[0].question != "" ==> ToQuestion(items[i]) in Questions(items)
    ensures forall q :: q in Questions(items) ==>
              exists i :: 0 <= i < |items| && items[i].1[0].question != "" && q == ToQuestion(items[i])
    decreases |items|
  {
    if items != [] {
      var rest := items[1..];
      assert forall i :: 1 <= i < |items| ==> items[i] == rest[i - 1];
      QuestionsMembers(rest);
    }
  }

  /** A single group yields its question exactly when its first row has a question. */
  lemma QuestionsSingle(g: Group)
    requires |g.1| > 0
    ensures Questions([g]) == if g.1[0].question != "" then [ToQuestion(g)] else []
  {
    assert [g][1..] == [];
  }

  /** Building questions commutes with splitting the groups: group order is kept. */
  lemma {:induction false} QuestionsAppend(a: seq<Group>, b: seq<Group>)
    requires forall i :: 0 <= i < |a| ==> |a[i].1| > 0
    requires forall i :: 0 <= i < |b| ==> |b[i].1| > 0
    ensures forall i :: 0 <= i < |a + b| ==> |(a + b)[i].1| > 0
    ensures Questions(a + b) == Questions(a) + Questions(b)
    decreases |a|
  {
    if a == [] {
      assert a + b == b;
    } else {
      ConsAppend(a, b);
      QuestionsAppend(a[1..], b);
      QuestionsCons(a);
      QuestionsCons(a + b);
      var head := if a[0].1[0].question != "" then [ToQuestion(a[0])] else [];
      AppendAssoc(head, Questions(a[1..]), Questions(b));
    }
  }

  /** The first group's question, if any, followed by the others'. */
  lemma QuestionsCons(items: seq<Group>)
    requires items != [] && forall i :: 0 <= i < |items| ==> |items[i].1| > 0
    ensures forall i :: 0 <= i < |items| - 1 ==> |items[1..][i].1| > 0
    ensures Questions(items) ==
            (if items[0].1[0].question != "" then [ToQuestion(items[0])] else []) + Questions(items[1..])
  {
  }

  lemma ConsAppend<T>(a: seq<T>, b: seq<T>)
    requires a != []
    ensures (a + b)[0] == a[0] && (a + b)[1..] == a[1..] + b
  {
  }

  lemma AppendAssoc<T>(x: seq<T>, y: seq<T>, z: seq<T>)
    ensures x + (y + z) == (x + y) + z
  {
  }

  /** Every question has a question text and an intent starting with `bfz_`. */
  lemma QuestionsShape(items: seq<Group>)
    requires forall i :: 0 <= i < |items| ==> |items[i].1| > 0
    ensures forall i :: 0 <= i < |Questions(items)| ==>
              Questions(items)[i].question != "" &&
              |Questions(items)[i].intent| >= 4 && Questions(items)[i].intent[..4] == "bfz_"
  {
    var qs := Questions(items);
    QuestionsMembers(items);
    forall i | 0 <= i < |qs|
      ensures qs[i].question != "" && |qs[i].intent| >= 4 && qs[i].intent[..4] == "bfz_"
    {
      assert qs[i] in qs;
      var j :| 0 <= j < |items| && items[j].1[0].question != "" && qs[i] == ToQuestion(items[j]);
    }
  }

  // ---------------------------------------------------------------------
  // Shaping the FAQ
  // ---------------------------------------------------------------------

  /** `format_questions`: each question on a line of its own, as a `- ` list item. */
  function FormatQuestions(qs: seq<string>): (s: string)
    ensures |s| == |Concat(qs)| + 3 * |qs|
  {
    if qs == [] then "" else "- " + qs[0] + "\n" + FormatQuestions(qs[1..])
  }

  /** A list item without its `- ` marker. */
  function StripMarker(line: string): string
  {
    if |line| >= 2 && line[..2] == "- " then line[2..] else line
  }

  /** Reads a `- ` list back: the newline-terminated lines without their markers. */
  function ParseExamples(s: string): seq<string>
  {
    var lines := Split(s, '\n');
    seq(|lines| - 1, i requires 0 <= i < |lines| - 1 => StripMarker(lines[i]))
  }

  lemma {:induction false} SplitFormatted(qs: seq<string>)
    requires forall i :: 0 <= i < |qs| ==> '\n' !in qs[i]
    ensures Split(FormatQuestions(qs), '\n') == seq(|qs|, i requires 0 <= i < |qs| => "- " + qs[i]) + [""]
  {
    if qs == [] {
      assert FormatQuestions(qs) == "";
    } else {
      var line := "- " + qs[0];
      assert '\n' !in line by {
        assert forall j :: 0 <= j < |line| ==> line[j] == if j < 2 then "- "[j] else qs[0][j - 2];
      }
      assert FormatQuestions(qs) == line + ['\n'] + FormatQuestions(qs[1..]);
      SplitAt(line, FormatQuestions(qs[1..]), '\n');
      SplitFormatted(qs[1..]);
    }
  }

  lemma StripItemMarker(q: string)
    ensures StripMarker("- " + q) == q
  {
    var line := "- " + q;
    assert line[..2] == "- " && line[2..] == q;
  }

  /** Formatting newline-free questions and reading them back gives them again. */
  lemma FormatQuestionsRoundTrip(qs: seq<string>)
    requires forall i :: 0 <= i < |qs| ==> '\n' !in qs[i]
    ensures ParseExamples(FormatQuestions(qs)) == qs
  {
    SplitFormatted(qs);
    var lines := Split(FormatQuestions(qs), '\n');
    var parsed := ParseExamples(FormatQuestions(qs));
    assert |lines| == |qs| + 1;
    forall i | 0 <= i < |qs|
      ensures parsed[i] == qs[i]
    {
      assert lines[i] == "- " + qs[i];
      StripItemMarker(qs[i]);
    }
  }

  /** The training examples of one question: the question, then its variants. */
  datatype NluEntry = NluEntry(intent: string, examples: string)

  /** `{'text': answer}`. */
  datatype Response = Response(text: string)

  /** The FAQ document: version, retrieval-intent examples and responses. */
  datatype Faq = Faq(version: string, nlu: seq<NluEntry>, responses: Dict<string, seq<Response>>)

  function NluEntries(qs: seq<Question>): (es: seq<NluEntry>)
    ensures |es| == |qs|
    ensures forall i :: 0 <= i < |qs| ==> es[i].intent == "faq/" + qs[i].intent
  {
    seq(|qs|, i requires 0 <= i < |qs| =>
      NluEntry("faq/" + qs[i].intent, FormatQuestions([qs[i].question] + qs[i].questionVariants)))
  }

  function ResponseKey(intent: string): string
  {
    "utter_faq/" + intent
  }

  /** The `responses` dictionary comprehension: later questions overwrite earlier ones. */
  function Responses(qs: seq<Question>): (d: Dict<string, seq<Response>>)
    ensures Valid(d)
  {
    if qs == [] then Empty()
    else Set(Responses(qs[..|qs| - 1]), ResponseKey(qs[|qs| - 1].intent), [Response(qs[|qs| - 1].answer)])
  }

  /** The `faq` document built from the questions. */
  function FaqOf(qs: seq<Question>): (f: Faq)
    ensures f.version == "2.0"
    ensures |f.nlu| == |qs|
    ensures forall i :: 0 <= i < |qs| ==> f.nlu[i].intent == "faq/" + qs[i].intent
    ensures Valid(f.responses)
  {
    Faq("2.0", NluEntries(qs), Responses(qs))
  }

  /** The examples of each intent read back as the question followed by its variants. */
  lemma FaqExamplesRoundTrip(qs: seq<Question>, i: nat)
    requires i < |qs|
    requires '\n' !in qs[i].question
    requires forall j :: 0 <= j < |qs[i].questionVariants| ==> '\n' !in qs[i].questionVariants[j]
    ensures ParseExamples(FaqOf(qs).nlu[i].examples) == [qs[i].question] + qs[i].questionVariants
  {
    var lines := [qs[i].question] + qs[i].questionVariants;
    assert forall j :: 1 <= j < |lines| ==> lines[j] == qs[i].questionVariants[j - 1];
    FormatQuestionsRoundTrip(lines);
  }

  lemma ResponseKeyInjective(a: string, b: string)
    requires ResponseKey(a) == ResponseKey(b)
    ensures a == b
  {
    assert a == ResponseKey(a)[10..];
    assert b == ResponseKey(b)[10..];
  }

  /** The response keys are exactly the questions' intents under `utter_faq/`. */
  lemma {:induction false} ResponseKeys(qs: seq<Question>, k: string)
    ensures k in Responses(qs).values <==> exists i :: 0 <= i < |qs| && k == ResponseKey(qs[i].intent)
    decreases |qs|
  {
    if qs != [] {
      var p := qs[..|qs| - 1];
      ResponseKeys(p, k);
      assert forall i :: 0 <= i < |p| ==> qs[i] == p[i];
    }
  }

  lemma ResponsesStep(qs: seq<Question>, q: Question)
    ensures Responses(qs + [q]) == Set(Responses(qs), ResponseKey(q.intent), [Response(q.answer)])
  {
    assert (qs + [q])[..|qs + [q]| - 1] == qs;
  }

  /** `qs[j]` is the last question with intent `intent`. */
  predicate LastWithIntent(qs: seq<Question>, j: int, intent: string)
  {
    0 <= j < |qs| && qs[j].intent == intent && forall l :: j < l < |qs| ==> qs[l].intent != intent
  }

  /** Each response holds the answer of the last question with that intent. */
  lemma {:induction false} ResponseLastWins(qs: seq<Question>, i: nat)
    requires i < |qs|
    ensures ResponseKey(qs[i].intent) in Responses(qs).values
    ensures exists j :: i <= j && LastWithIntent(qs, j, qs[i].intent) &&
                        Responses(qs).values[ResponseKey(qs[i].intent)] == [Response(qs[j].answer)]
    decreases |qs|
  {
    var p := qs[..|qs| - 1];
    var last := qs[|qs| - 1];
    assert p + [last] == qs;
    ResponsesStep(p, last);
    if last.intent == qs[i].intent {
      assert LastWithIntent(qs, |qs| - 1, qs[i].intent);
    } else {
      assert ResponseKey(last.intent) != ResponseKey(qs[i].intent) by {
        if ResponseKey(last.intent) == ResponseKey(qs[i].intent) {
          ResponseKeyInjective(last.intent, qs[i].intent);
        }
      }
      assert qs[i] == p[i];
      ResponseLastWins(p, i);
      var j :| i <= j && LastWithIntent(p, j, p[i].intent) &&
               Responses(p).values[ResponseKey(p[i].intent)] == [Response(p[j].answer)];
      assert qs[j] == p[j];
      assert forall l :: j < l < |p| ==> qs[l] == p[l];
      assert LastWithIntent(qs, j, qs[i].intent);
    }
  }

  /** Intents are distinct: no two questions share an intent name. */
  predicate IntentsDistinct(qs: seq<Question>)
  {
    forall i, j :: 0 <= i < j < |qs| ==> qs[i].intent != qs[j].intent
  }

  /** The response key of each question, in question order. */
  function ResponseKeysOf(qs: seq<Question>): (ks: seq<string>)
    ensures |ks| == |qs| && forall i :: 0 <= i < |qs| ==> ks[i] == ResponseKey(qs[i].intent)
  {
    seq(|qs|, i requires 0 <= i < |qs| => ResponseKey(qs[i].intent))
  }

  lemma {:induction false} ResponseKeysInOrder(qs: seq<Question>)
    requires IntentsDistinct(qs)
    ensures Responses(qs).keys == ResponseKeysOf(qs)
    decreases |qs|
  {
    if qs != [] {
      var p := qs[..|qs| - 1];
      var last := qs[|qs| - 1];
      assert p + [last] == qs;
      ResponsesStep(p, last);
      ResponseKeysInOrder(p);
      ResponseKeys(p, ResponseKey(last.intent));
      if ResponseKey(last.intent) in Responses(p).values {
        var i :| 0 <= i < |p| && ResponseKey(last.intent) == ResponseKey(p[i].intent);
        ResponseKeyInjective(last.intent, p[i].intent);
      }
      assert ResponseKeysOf(qs) == ResponseKeysOf(p) + [ResponseKey(last.intent)];
    }
  }

  /**
   * With distinct intents there is one response per question, in question
   * order, holding that question's answer.
   */
  lemma ResponsesOnePerQuestion(qs: seq<Question>)
    requires IntentsDistinct(qs)
    ensures Responses(qs).keys == ResponseKeysOf(qs)
    ensures forall i :: 0 <= i < |qs| ==> ResponseKey(qs[i].intent) in Responses(qs).values
    ensures forall i :: 0 <= i < |qs| ==> Responses(qs).values[ResponseKey(qs[i].intent)] == [Response(qs[i].answer)]
  {
    ResponseKeysInOrder(qs);
    forall i | 0 <= i < |qs|
      ensures ResponseKey(qs[i].intent) in Responses(qs).values &&
              Responses(qs).values[ResponseKey(qs[i].intent)] == [Response(qs[i].answer)]
    {
      ResponseOfDistinct(qs, i);
    }
  }

  lemma ResponseOfDistinct(qs: seq<Question>, i: nat)
    requires IntentsDistinct(qs) && i < |qs|
    ensures ResponseKey(qs[i].intent) in Responses(qs).values
    ensures Responses(qs).values[ResponseKey(qs[i].intent)] == [Response(qs[i].answer)]
  {
    ResponseLastWins(qs, i);
    var j :| i <= j && LastWithIntent(qs, j, qs[i].intent) &&
             Responses(qs).values[ResponseKey(qs[i].intent)] == [Response(qs[j].answer)];
    assert j == i;
  }

  /** Every retrieval intent `faq/x` has its response `utter_faq/x`. */
  lemma EveryIntentHasResponse(qs: seq<Question>)
    ensures forall i :: 0 <= i < |FaqOf(qs).nlu| ==> "utter_" + FaqOf(qs).nlu[i].intent in FaqOf(qs).responses.values
  {
    forall i | 0 <= i < |qs|
      ensures "utter_" + FaqOf(qs).nlu[i].intent in FaqOf(qs).responses.values
    {
      assert "utter_" + ("faq/" + qs[i].intent) == ResponseKey(qs[i].intent);
      ResponseKeys(qs, ResponseKey(qs[i].intent));
    }
  }

  /** Every group of a grouping is non-empty, so its first row exists. */
  lemma GroupItemsNonEmpty(rows: seq<Row>, col: Column)
    ensures forall i :: 0 <= i < |Items(Grouped(rows, col))| ==> |Items(Grouped(rows, col))[i].1| > 0
  {
    GroupShape(rows, col);
    var d := Grouped(rows, col);
    forall i | 0 <= i < |Items(d)|
      ensures |Items(d)[i].1| > 0
    {
      assert d.keys[i] in d.values by { assert d.keys[i] in KeySet(d.keys); }
      assert WellFormed((d.keys[i], d.values[d.keys[i]]), col);
    }
  }

  /** Retrieval intents of `bfz_` questions all start with `faq/bfz_`. */
  lemma FaqIntentsPrefixed(qs: seq<Question>)
    requires forall i :: 0 <= i < |qs| ==> |qs[i].intent| >= 4 && qs[i].intent[..4] == "bfz_"
    ensures var nlu := FaqOf(qs).nlu;
            forall i :: 0 <= i < |nlu| ==> |nlu[i].intent| >= 8 && nlu[i].intent[..8] == "faq/bfz_"
  {
    var nlu := FaqOf(qs).nlu;
    forall i | 0 <= i < |nlu|
      ensures |nlu[i].intent| >= 8 && nlu[i].intent[..8] == "faq/bfz_"
    {
      var x := qs[i].intent;
      assert nlu[i].intent == "faq/" + x;
      assert ("faq/" + x)[..8] == "faq/" + x[..4];
    }
  }

  /** The FAQ built from the rows of the `/bfz` block, grouped by context. */
  function BfzFaq(bfzRows: seq<Row>): (f: Faq)
    ensures forall i :: 0 <= i < |f.nlu| ==> |f.nlu[i].intent| >= 8 && f.nlu[i].intent[..8] == "faq/bfz_"
  {
    var items := Items(Grouped(bfzRows, ContextColumn));
    GroupItemsNonEmpty(bfzRows, ContextColumn);
    var qs := Questions(items);
    QuestionsShape(items);
    FaqIntentsPrefixed(qs);
    FaqOf(qs)
  }

  /**
   * The whole script: group by intention, take the `/bfz` block (a
   * `KeyError` when there is none), group it by context and shape the FAQ.
   */
  function ImportFaq(rows: seq<Row>): (r: Option<Faq>)
    ensures r.Some? <==> exists j :: 0 <= j < |rows| && rows[j].intention == "/bfz"
    ensures r.Some? ==> forall i :: 0 <= i < |r.value.nlu| ==>
              |r.value.nlu[i].intent| >= 8 && r.value.nlu[i].intent[..8] == "faq/bfz_"
  {
    GroupedKeys(rows, IntentionColumn, "/bfz");
    var gs := Grouped(rows, IntentionColumn);
    if "/bfz" !in gs.values then None
    else Some(BfzFaq(gs.values["/bfz"]))
  }
}
