/**
 The sort-merge join of two tables on time and tags.
 */
module MergeJoin {
  import opened Sequences
  import opened Strings

  /** A column is the time column, a tag or a value. */
  datatype Column = TimeCol | TagCol(name: string) | ValueCol(name: string)

  /** A row: its time, its strings by tag name, its values by value name. */
  datatype Row = Row(time: int, tags: map<string, string>, values: map<string, int>)

  datatype JoinKey = JoinKey(time: int, tags: map<string, string>)

  function TagOf(tags: map<string, string>, name: string): string {
    if name in tags then tags[name] else ""
  }

  /** The labels of the tag columns, in column order. */
  function Labels(cols: seq<Column>): seq<string> {
    if cols == [] then []
    else (if cols[0].TagCol? then [cols[0].name] else []) + Labels(cols[1..])
  }

  /** The key of a row under the given columns. */
  function KeyOf(cols: seq<Column>, row: Row): JoinKey {
    JoinKey(row.time, map name | name in Labels(cols) :: TagOf(row.tags, name))
  }

  /** `rowKey`. */
  method RowKey(cols: seq<Column>, row: Row) returns (k: JoinKey)
    ensures k == KeyOf(cols, row)
  {
    var tags: map<string, string> := map[];
    for j := 0 to |cols|
      invariant forall name :: name in tags <==> name in Labels(cols[..j])
      invariant forall name | name in tags :: tags[name] == TagOf(row.tags, name)
    {
      LabelsAppend(cols[..j], cols[j]);
      assert cols[..j + 1] == cols[..j] + [cols[j]];
      if cols[j].TagCol? {
        tags := tags[cols[j].name := TagOf(row.tags, cols[j].name)];
      }
    }
    assert cols[..|cols|] == cols;
    k := JoinKey(row.time, tags);
  }

  lemma {:induction false} LabelsAppend(cols: seq<Column>, c: Column)
    ensures Labels(cols + [c]) == Labels(cols) + if c.TagCol? then [c.name] else []
  {
    if cols != [] {
      LabelsAppend(cols[1..], c);
      assert (cols + [c])[1..] == cols[1..] + [c];
    }
  }

  /** `equalRowKeys`. */
  method EqualRowKeys(cols: seq<Column>, x: Row, y: Row) returns (b: bool)
    requires TimeCol in cols
    ensures b <==> KeyOf(cols, x) == KeyOf(cols, y)
  {
    for j := 0 to |cols|
      invariant TimeCol in cols[..j] ==> x.time == y.time
      invariant forall name | name in Labels(cols[..j]) :: TagOf(x.tags, name) == TagOf(y.tags, name)
    {
      LabelsAppend(cols[..j], cols[j]);
      assert cols[..j + 1] == cols[..j] + [cols[j]];
      assert cols == cols[..j + 1] + cols[j + 1..];
      if cols[j].TimeCol? {
        if x.time != y.time { return false; }
      } else if cols[j].TagCol? {
        if TagOf(x.tags, cols[j].name) != TagOf(y.tags, cols[j].name) {
          LabelListed(cols, j);
          assert KeyOf(cols, x).tags[cols[j].name] != KeyOf(cols, y).tags[cols[j].name];
          return false;
        }
      }
    }
    assert cols[..|cols|] == cols;
    assert KeyOf(cols, x).tags == KeyOf(cols, y).tags;
    b := true;
  }

  lemma {:induction false} LabelListed(cols: seq<Column>, j: nat)
    requires j < |cols| && cols[j].TagCol?
    ensures cols[j].name in Labels(cols)
  {
    if j > 0 { LabelListed(cols[1..], j - 1); }
  }

  // ----- comparing keys -----

  /** The tags of `k` have the same values in `o`. */
  predicate SameKey(k: JoinKey, o: JoinKey) {
    k.time == o.time && forall t | t in k.tags :: k.tags[t] == TagOf(o.tags, t)
  }

  /** `joinKey.Equal`. */
  method Equal(k: JoinKey, o: JoinKey) returns (b: bool)
    ensures b <==> SameKey(k, o)
  {
    if k.time != o.time { return false; }
    var rest := k.tags.Keys;
    while rest != {}
      invariant rest <= k.tags.Keys
      invariant forall t | t in k.tags && t !in rest :: TagOf(k.tags, t) == TagOf(o.tags, t)
      decreases rest
    {
      var t :| t in rest;
      if TagOf(k.tags, t) != TagOf(o.tags, t) { return false; }
      rest := rest - {t};
    }
    b := true;
  }

  /** The outcomes of `joinKey.Less`, which ranges over a Go map: of the tags that
      differ, any may come first and decide. */
  ghost predicate MayLess(k: JoinKey, o: JoinKey, b: bool) {
    if k.time != o.time then b == (k.time < o.time)
    else if forall t | t in k.tags :: TagOf(k.tags, t) == TagOf(o.tags, t) then !b
    else exists t | t in k.tags ::
      TagOf(k.tags, t) != TagOf(o.tags, t) && b == Before(TagOf(k.tags, t), TagOf(o.tags, t))
  }

  /** `joinKey.Less`. */
  method Less(k: JoinKey, o: JoinKey) returns (b: bool)
    ensures MayLess(k, o, b)
  {
    if k.time == o.time {
      var rest := k.tags.Keys;
      while rest != {}
        invariant rest <= k.tags.Keys
        invariant forall t | t in k.tags && t !in rest :: TagOf(k.tags, t) == TagOf(o.tags, t)
        decreases rest
      {
        var t :| t in rest;
        if TagOf(k.tags, t) != TagOf(o.tags, t) {
          return Before(TagOf(k.tags, t), TagOf(o.tags, t));
        }
        rest := rest - {t};
      }
    }
    b := k.time < o.time;
  }

  /** The order of keys that sorting establishes: by time, then by tags in the order of
      their columns. */
  predicate KeyBefore(labels: seq<string>, k: JoinKey, o: JoinKey) {
    k.time < o.time || (k.time == o.time && TagsBefore(labels, k.tags, o.tags))
  }

  predicate TagsBefore(labels: seq<string>, k: map<string, string>, o: map<string, string>) {
    labels != [] &&
    (if TagOf(k, labels[0]) != TagOf(o, labels[0]) then Before(TagOf(k, labels[0]), TagOf(o, labels[0]))
     else TagsBefore(labels[1..], k, o))
  }

  lemma {:induction false} TagsBeforeTransitive(
    labels: seq<string>, k: map<string, string>, o: map<string, string>, q: map<string, string>)
    requires TagsBefore(labels, k, o) && TagsBefore(labels, o, q)
    ensures TagsBefore(labels, k, q)
  {
    var a, b, c := TagOf(k, labels[0]), TagOf(o, labels[0]), TagOf(q, labels[0]);
    if a == b == c {
      TagsBeforeTransitive(labels[1..], k, o, q);
    } else if a != b && b != c {
      BeforeTransitive(a, b, c);
      BeforeIrreflexive(a);
    }
  }

  lemma {:induction false} TagsBeforeTotal(labels: seq<string>, k: map<string, string>, o: map<string, string>)
    ensures TagsBefore(labels, k, o) || TagsBefore(labels, o, k) || forall l | l in labels :: TagOf(k, l) == TagOf(o, l)
  {
    if labels != [] {
      BeforeTotal(TagOf(k, labels[0]), TagOf(o, labels[0]));
      TagsBeforeTotal(labels[1..], k, o);
    }
  }

  lemma {:induction false} TagsBeforeIrreflexive(labels: seq<string>, k: map<string, string>)
    ensures !TagsBefore(labels, k, k)
  {
    if labels != [] { TagsBeforeIrreflexive(labels[1..], k); }
  }

  /** A key under the given labels. */
  ghost predicate HasLabels(labels: seq<string>, k: JoinKey) {
    forall l :: l in k.tags <==> l in labels
  }

  lemma KeyBeforeTotal(labels: seq<string>, k: JoinKey, o: JoinKey)
    requires HasLabels(labels, k) && HasLabels(labels, o)
    ensures KeyBefore(labels, k, o) || k == o || KeyBefore(labels, o, k)
  {
    TagsBeforeTotal(labels, k.tags, o.tags);
    if forall l | l in labels :: TagOf(k.tags, l) == TagOf(o.tags, l) {
      assert k.tags == o.tags;
    }
  }

  lemma KeyBeforeTransitive(labels: seq<string>, k: JoinKey, o: JoinKey, q: JoinKey)
    requires KeyBefore(labels, k, o) && KeyBefore(labels, o, q)
    ensures KeyBefore(labels, k, q)
  {
    if k.time == o.time == q.time { TagsBeforeTransitive(labels, k.tags, o.tags, q.tags); }
  }

  lemma KeyBeforeIrreflexive(labels: seq<string>, k: JoinKey)
    ensures !KeyBefore(labels, k, k)
  {
    TagsBeforeIrreflexive(labels, k.tags);
  }

  lemma KeyBeforeAsymmetric(labels: seq<string>, k: JoinKey, o: JoinKey)
    ensures KeyBefore(labels, k, o) ==> !KeyBefore(labels, o, k)
  {
    KeyBeforeIrreflexive(labels, k);
    if KeyBefore(labels, k, o) && KeyBefore(labels, o, k) {
      KeyBeforeTransitive(labels, k, o, k);
    }
  }

  /** However the map is ranged over, `Less` tells how two different keys are sorted. */
  ghost predicate Reliable(labels: seq<string>, k: JoinKey, o: JoinKey) {
    k != o ==> forall b | MayLess(k, o, b) :: b == KeyBefore(labels, k, o)
  }

  /** There is at most one label. */
  predicate AtMostOne(labels: seq<string>) {
    forall t, u | t in labels && u in labels :: t == u
  }

  /** At most one column is a tag. */
  predicate OneTag(cols: seq<Column>) {
    AtMostOne(Labels(cols))
  }

  /** With at most one tag it always does. */
  lemma OneTagIsReliable(labels: seq<string>, k: JoinKey, o: JoinKey)
    requires AtMostOne(labels) && HasLabels(labels, k) && HasLabels(labels, o)
    ensures Reliable(labels, k, o)
  {
    assert (forall t | t in k.tags :: TagOf(k.tags, t) == TagOf(o.tags, t)) ==> k.tags == o.tags;
    assert labels != [] ==> labels[0] in labels;
    assert forall t | t in k.tags :: labels != [] && t == labels[0];
  }

  /** `Less` tells all keys of a set of tags apart exactly when there is at most one. */
  lemma ReliableIffOneTag(labels: seq<string>)
    ensures (forall k, o | HasLabels(labels, k) && HasLabels(labels, o) :: Reliable(labels, k, o))
            <==> AtMostOne(labels)
  {
    if AtMostOne(labels) {
      forall k, o | HasLabels(labels, k) && HasLabels(labels, o) ensures Reliable(labels, k, o) {
        OneTagIsReliable(labels, k, o);
      }
    } else {
      var t, u :| t in labels && u in labels && t != u;
      TwoTagsAreUnreliable(labels, t, u);
    }
  }

  /** A key whose tags are all empty, except for two. */
  function TwoTags(labels: seq<string>, t: string, x: string, u: string, y: string): JoinKey {
    JoinKey(0, map l | l in labels :: if l == t then x else if l == u then y else "")
  }

  lemma TwoTagsAreUnreliable(labels: seq<string>, t: string, u: string)
    requires t in labels && u in labels && t != u
    ensures var k, o := TwoTags(labels, t, "x", u, "y"), TwoTags(labels, t, "y", u, "x");
            HasLabels(labels, k) && HasLabels(labels, o) && !Reliable(labels, k, o)
  {
    var k, o := TwoTags(labels, t, "x", u, "y"), TwoTags(labels, t, "y", u, "x");
    assert TagOf(k.tags, t) == "x" && TagOf(o.tags, t) == "y" && "x"[0] != "y"[0];
    assert TagOf(k.tags, u) == "y" && TagOf(o.tags, u) == "x";
    assert Before("x", "y") && !Before("y", "x");
    MayLessBy(k, o, t);
    MayLessBy(k, o, u);
  }

  lemma MayLessBy(k: JoinKey, o: JoinKey, t: string)
    requires k.time == o.time && t in k.tags && TagOf(k.tags, t) != TagOf(o.tags, t)
    ensures MayLess(k, o, Before(TagOf(k.tags, t), TagOf(o.tags, t)))
  {
  }

  // ----- the nested-loop join -----

  datatype Table = Table(cols: seq<Column>, rows: seq<Row>)

  function Key(t: Table, i: nat): JoinKey
    requires i < |t.rows|
  {
    KeyOf(t.cols, t.rows[i])
  }

  /** An emitted row: the key it is built from and the joined rows. */
  datatype Joined = Joined(key: JoinKey, l: nat, r: nat)

  /** The inner join, row by row: every pair with equal keys, once, in row order. */
  function NestedLoop(left: Table, right: Table, l: nat): seq<Joined>
    decreases |left.rows| - l
  {
    if l >= |left.rows| then [] else InnerLoop(left, right, l, 0) + NestedLoop(left, right, l + 1)
  }

  function InnerLoop(left: Table, right: Table, l: nat, r: nat): seq<Joined>
    requires l < |left.rows|
    decreases |right.rows| - r
  {
    if r >= |right.rows| then []
    else (if Key(left, l) == Key(right, r) then [Joined(Key(left, l), l, r)] else [])
         + InnerLoop(left, right, l, r + 1)
  }

  /** The pairs of two groups of rows with the same key. */
  function Block(key: JoinKey, l: nat, lstop: nat, r: nat, rstop: nat): seq<Joined>
    decreases lstop - l
  {
    if l >= lstop then [] else Line(key, l, r, rstop) + Block(key, l + 1, lstop, r, rstop)
  }

  function Line(key: JoinKey, l: nat, r: nat, rstop: nat): seq<Joined>
    decreases rstop - r
  {
    if r >= rstop then [] else [Joined(key, l, r)] + Line(key, l, r + 1, rstop)
  }

  lemma {:induction false} InnerLoopIsLine(left: Table, right: Table, l: nat, r: nat, rstart: nat, rstop: nat)
    requires l < |left.rows| && r <= rstop && rstart <= rstop <= |right.rows|
    requires forall i | 0 <= i < |right.rows| :: Key(right, i) == Key(left, l) <==> rstart <= i < rstop
    ensures InnerLoop(left, right, l, r) == Line(Key(left, l), l, if r < rstart then rstart else r, rstop)
    decreases |right.rows| - r
  {
    if r < rstop {
      InnerLoopIsLine(left, right, l, r + 1, rstart, rstop);
    } else {
      InnerLoopIsEmpty(left, right, l, r);
    }
  }

  lemma {:induction false} InnerLoopIsEmpty(left: Table, right: Table, l: nat, r: nat)
    requires l < |left.rows| && forall i | r <= i < |right.rows| :: Key(right, i) != Key(left, l)
    ensures InnerLoop(left, right, l, r) == []
    decreases |right.rows| - r
  {
    if r < |right.rows| { InnerLoopIsEmpty(left, right, l, r + 1); }
  }

  lemma {:induction false} NestedLoopSkips(left: Table, right: Table, l: nat, lstop: nat)
    requires l <= lstop <= |left.rows|
    requires forall i, j | l <= i < lstop && 0 <= j < |right.rows| :: Key(left, i) != Key(right, j)
    ensures NestedLoop(left, right, l) == NestedLoop(left, right, lstop)
    decreases lstop - l
  {
    if l < lstop {
      InnerLoopIsEmpty(left, right, l, 0);
      NestedLoopSkips(left, right, l + 1, lstop);
    }
  }

  lemma {:induction false} NestedLoopBlock(
    left: Table, right: Table, key: JoinKey, l: nat, lstop: nat, rstart: nat, rstop: nat)
    requires l <= lstop <= |left.rows| && rstart <= rstop <= |right.rows|
    requires forall i | l <= i < lstop :: Key(left, i) == key
    requires forall j | 0 <= j < |right.rows| :: Key(right, j) == key <==> rstart <= j < rstop
    ensures NestedLoop(left, right, l) == Block(key, l, lstop, rstart, rstop) + NestedLoop(left, right, lstop)
    decreases lstop - l
  {
    if l < lstop {
      InnerLoopIsLine(left, right, l, 0, rstart, rstop);
      NestedLoopBlock(left, right, key, l + 1, lstop, rstart, rstop);
    }
  }

  // ----- the merge -----

  /** The end of the group of rows that share the key of row `i`. */
  function GroupEnd(t: Table, i: nat): (stop: nat)
    requires i < |t.rows|
    ensures i < stop <= |t.rows|
  {
    GroupFrom(t, i, i + 1)
  }

  function GroupFrom(t: Table, i: nat, j: nat): (stop: nat)
    requires i < j <= |t.rows|
    ensures j <= stop <= |t.rows|
    decreases |t.rows| - j
  {
    if j < |t.rows| && Key(t, j) == Key(t, i) then GroupFrom(t, i, j + 1) else j
  }

  lemma {:induction false} GroupHasKey(t: Table, i: nat, j: nat, m: nat)
    requires i < j <= |t.rows|
    requires forall k | i <= k < j :: Key(t, k) == Key(t, i)
    ensures i <= m < GroupFrom(t, i, j) ==> Key(t, m) == Key(t, i)
    ensures GroupFrom(t, i, j) < |t.rows| ==> Key(t, GroupFrom(t, i, j)) != Key(t, i)
    decreases |t.rows| - j
  {
    if j < |t.rows| && Key(t, j) == Key(t, i) { GroupHasKey(t, i, j + 1, m); }
  }

  /** The rows the merge can still emit from row `l` of `left` and row `r` of `right` on,
      over all outcomes of `Less`. */
  ghost predicate MayEmit(left: Table, right: Table, l: nat, r: nat, rows: seq<Joined>)
    decreases |left.rows| - l + |right.rows| - r
  {
    if l >= |left.rows| || r >= |right.rows| then rows == [] else
    var k, o, lstop, rstop := Key(left, l), Key(right, r), GroupEnd(left, l), GroupEnd(right, r);
    if SameKey(k, o) then
      var block := Block(k, l, lstop, r, rstop);
      block <= rows && MayEmit(left, right, lstop, rstop, rows[|block|..])
    else
      || (MayLess(k, o, true) && MayEmit(left, right, lstop, r, rows))
      || (MayLess(k, o, false) && MayEmit(left, right, l, rstop, rows))
  }

  datatype Subset = Subset(start: nat, stop: nat) {
    predicate Empty() { start == stop }
  }

  /** `s` is the group of rows from `offset` on and `k` its key; at the end of the table
      it is empty. */
  ghost predicate IsGroup(t: Table, offset: nat, s: Subset, k: JoinKey) {
    && s.start == offset <= |t.rows|
    && (if offset == |t.rows| then s.stop == offset else s.stop == GroupEnd(t, offset) && k == Key(t, offset))
  }

  /** `advance`. */
  method Advance(offset: nat, t: Table) returns (s: Subset, k: JoinKey)
    requires TimeCol in t.cols && offset <= |t.rows|
    ensures IsGroup(t, offset, s, k)
  {
    if |t.rows| == offset {
      return Subset(offset, offset), JoinKey(0, map[]);
    }
    k := RowKey(t.cols, t.rows[offset]);
    var stop := offset + 1;
    while stop < |t.rows|
      invariant offset < stop <= |t.rows|
      invariant GroupFrom(t, offset, stop) == GroupEnd(t, offset)
    {
      var same := EqualRowKeys(t.cols, t.rows[offset], t.rows[stop]);
      if !same { break; }
      stop := stop + 1;
    }
    s := Subset(offset, stop);
  }

  /** The two inner loops of `Join`. */
  method EmitBlock(key: JoinKey, ls: Subset, rs: Subset) returns (rows: seq<Joined>)
    requires ls.start <= ls.stop && rs.start <= rs.stop
    ensures rows == Block(key, ls.start, ls.stop, rs.start, rs.stop)
  {
    rows := [];
    for l := ls.start to ls.stop
      invariant rows + Block(key, l, ls.stop, rs.start, rs.stop) == Block(key, ls.start, ls.stop, rs.start, rs.stop)
    {
      Associates(rows, Line(key, l, rs.start, rs.stop), Block(key, l + 1, ls.stop, rs.start, rs.stop));
      rows := EmitLine(key, l, rs, rows);
    }
  }

  method EmitLine(key: JoinKey, l: nat, rs: Subset, before: seq<Joined>) returns (rows: seq<Joined>)
    requires rs.start <= rs.stop
    ensures rows == before + Line(key, l, rs.start, rs.stop)
  {
    rows := before;
    for r := rs.start to rs.stop
      invariant rows + Line(key, l, r, rs.stop) == before + Line(key, l, rs.start, rs.stop)
    {
      Associates(rows, [Joined(key, l, r)], Line(key, l, r + 1, rs.stop));
      rows := rows + [Joined(key, l, r)];
    }
  }

  /** The merge loop of `Join`, on any two tables. */
  method Join(left: Table, right: Table) returns (rows: seq<Joined>)
    requires TimeCol in left.cols && TimeCol in right.cols
    ensures MayEmit(left, right, 0, 0, rows)
  {
    rows := [];
    var leftSet, leftKey := Advance(0, left);
    var rightSet, rightKey := Advance(0, right);
    NothingEmitted(left, right);
    while !leftSet.Empty() && !rightSet.Empty()
      invariant IsGroup(left, leftSet.start, leftSet, leftKey) && IsGroup(right, rightSet.start, rightSet, rightKey)
      invariant Leads(left, right, leftSet.start, rightSet.start, rows)
      decreases |left.rows| - leftSet.start + |right.rows| - rightSet.start
    {
      var equal := Equal(leftKey, rightKey);
      if equal {
        var block := EmitBlock(leftKey, leftSet, rightSet);
        BlockEmitted(left, right, leftSet.start, rightSet.start, rows);
        rows := rows + block;
        leftSet, leftKey := Advance(leftSet.stop, left);
        rightSet, rightKey := Advance(rightSet.stop, right);
      } else {
        var less := Less(leftKey, rightKey);
        GroupSkipped(left, right, leftSet.start, rightSet.start, rows, less);
        if less {
          leftSet, leftKey := Advance(leftSet.stop, left);
        } else {
          rightSet, rightKey := Advance(rightSet.stop, right);
        }
      }
    }
    NothingAdded(rows);
  }

  /** Having emitted `rows`, the merge may go on from row `l` of `left` and row `r` of `right`. */
  ghost predicate Leads(left: Table, right: Table, l: nat, r: nat, rows: seq<Joined>) {
    forall rest :: MayEmit(left, right, l, r, rest) ==> MayEmit(left, right, 0, 0, rows + rest)
  }

  lemma NothingEmitted(left: Table, right: Table)
    ensures Leads(left, right, 0, 0, [])
  {
    forall rest | MayEmit(left, right, 0, 0, rest) ensures MayEmit(left, right, 0, 0, [] + rest) {
      assert [] + rest == rest;
    }
  }

  lemma BlockEmitted(left: Table, right: Table, l: nat, r: nat, rows: seq<Joined>)
    requires l < |left.rows| && r < |right.rows| && SameKey(Key(left, l), Key(right, r))
    requires Leads(left, right, l, r, rows)
    ensures Leads(left, right, GroupEnd(left, l), GroupEnd(right, r),
              rows + Block(Key(left, l), l, GroupEnd(left, l), r, GroupEnd(right, r)))
  {
    var block := Block(Key(left, l), l, GroupEnd(left, l), r, GroupEnd(right, r));
    forall rest | MayEmit(left, right, GroupEnd(left, l), GroupEnd(right, r), rest)
      ensures MayEmit(left, right, 0, 0, rows + block + rest)
    {
      assert (block + rest)[|block|..] == rest;
      assert MayEmit(left, right, l, r, block + rest);
      Associates(rows, block, rest);
    }
  }

  lemma GroupSkipped(left: Table, right: Table, l: nat, r: nat, rows: seq<Joined>, less: bool)
    requires l < |left.rows| && r < |right.rows| && !SameKey(Key(left, l), Key(right, r))
    requires MayLess(Key(left, l), Key(right, r), less) && Leads(left, right, l, r, rows)
    ensures if less then Leads(left, right, GroupEnd(left, l), r, rows)
            else Leads(left, right, l, GroupEnd(right, r), rows)
  {
  }

  // ----- the merge is the nested-loop join -----

  /** A table with the given key columns, sorted by key. */
  ghost predicate KeySorted(labels: seq<string>, t: Table) {
    && (forall name :: name in Labels(t.cols) <==> name in labels)
    && forall i, j | 0 <= i < j < |t.rows| :: !KeyBefore(labels, Key(t, j), Key(t, i))
  }

  lemma KeysGrow(labels: seq<string>, t: Table, i: nat, j: nat)
    requires KeySorted(labels, t) && i <= j < |t.rows|
    ensures Key(t, i) == Key(t, j) || KeyBefore(labels, Key(t, i), Key(t, j))
  {
    KeyBeforeTotal(labels, Key(t, i), Key(t, j));
  }

  /** The rows from `i` on with the key of row `i` are exactly its group. */
  lemma GroupIsWhole(labels: seq<string>, t: Table, i: nat, j: nat)
    requires KeySorted(labels, t) && i <= j < |t.rows|
    ensures Key(t, j) == Key(t, i) <==> j < GroupEnd(t, i)
  {
    var stop := GroupEnd(t, i);
    GroupHasKey(t, i, i + 1, j);
    if stop <= j { KeysGrow(labels, t, i, stop); }
  }

  /** A key below the first of the remaining rows is below all of them. */
  lemma BelowAll(labels: seq<string>, t: Table, k: JoinKey, i: nat, j: nat)
    requires KeySorted(labels, t) && i <= j < |t.rows| && KeyBefore(labels, k, Key(t, i))
    ensures k != Key(t, j)
  {
    KeyBeforeIrreflexive(labels, k);
  }

  /** The right rows before `r` match none of the left rows from `l` on. */
  ghost predicate Unmatched(left: Table, right: Table, l: nat, r: nat) {
    forall i, j | l <= i < |left.rows| && 0 <= j < r && j < |right.rows| :: Key(left, i) != Key(right, j)
  }

  /** The tables have the same key columns and are sorted by key, and `Less` can tell
      their keys apart. */
  ghost predicate Mergeable(left: Table, right: Table) {
    var labels := Labels(left.cols);
    && KeySorted(labels, left) && KeySorted(labels, right)
    && forall i, j | 0 <= i < |left.rows| && 0 <= j < |right.rows| :: Reliable(labels, Key(left, i), Key(right, j))
  }

  /** Whatever `Less` answers where it has a choice, the merge emits exactly the rows of
      the nested-loop join, in the same order. */
  lemma {:induction false} MergeIsNestedLoop(left: Table, right: Table, l: nat, r: nat, rows: seq<Joined>)
    requires Mergeable(left, right) && l <= |left.rows| && r <= |right.rows|
    requires Unmatched(left, right, l, r) && MayEmit(left, right, l, r, rows)
    ensures rows == NestedLoop(left, right, l)
    decreases |left.rows| - l + |right.rows| - r
  {
    if l == |left.rows| || r == |right.rows| {
      NestedLoopSkips(left, right, l, |left.rows|);
    } else {
      var k, o, lstop, rstop := Key(left, l), Key(right, r), GroupEnd(left, l), GroupEnd(right, r);
      assert Reliable(Labels(left.cols), k, o);
      SameKeyIsEqual(left, right, l, r);
      if k == o {
        var block := Block(k, l, lstop, r, rstop);
        MatchStep(left, right, l, r);
        MergeIsNestedLoop(left, right, lstop, rstop, rows[|block|..]);
      } else if KeyBefore(Labels(left.cols), k, o) {
        LeftStep(left, right, l, r);
        MergeIsNestedLoop(left, right, lstop, r, rows);
      } else {
        RightStep(left, right, l, r);
        MergeIsNestedLoop(left, right, l, rstop, rows);
      }
    }
  }

  lemma SameKeyIsEqual(left: Table, right: Table, l: nat, r: nat)
    requires Mergeable(left, right) && l < |left.rows| && r < |right.rows|
    ensures SameKey(Key(left, l), Key(right, r)) <==> Key(left, l) == Key(right, r)
  {
    assert Key(left, l).tags.Keys == Key(right, r).tags.Keys;
    if SameKey(Key(left, l), Key(right, r)) { assert Key(left, l).tags == Key(right, r).tags; }
  }

  lemma MatchStep(left: Table, right: Table, l: nat, r: nat)
    requires Mergeable(left, right) && l < |left.rows| && r < |right.rows| && Unmatched(left, right, l, r)
    requires Key(left, l) == Key(right, r)
    ensures NestedLoop(left, right, l)
            == Block(Key(left, l), l, GroupEnd(left, l), r, GroupEnd(right, r))
              + NestedLoop(left, right, GroupEnd(left, l))
    ensures Unmatched(left, right, GroupEnd(left, l), GroupEnd(right, r))
  {
    var key, lstop, rstop := Key(left, l), GroupEnd(left, l), GroupEnd(right, r);
    forall j | 0 <= j < |right.rows| ensures Key(right, j) == key <==> r <= j < rstop {
      if j >= r { GroupIsWhole(Labels(left.cols), right, r, j); }
    }
    forall i | l <= i < |left.rows| ensures Key(left, i) == key <==> i < lstop {
      GroupIsWhole(Labels(left.cols), left, l, i);
    }
    NestedLoopBlock(left, right, key, l, lstop, r, rstop);
  }

  lemma LeftStep(left: Table, right: Table, l: nat, r: nat)
    requires Mergeable(left, right) && l < |left.rows| && r < |right.rows| && Unmatched(left, right, l, r)
    requires KeyBefore(Labels(left.cols), Key(left, l), Key(right, r))
    ensures NestedLoop(left, right, l) == NestedLoop(left, right, GroupEnd(left, l))
    ensures Unmatched(left, right, GroupEnd(left, l), r)
  {
    var lstop := GroupEnd(left, l);
    forall i, j | l <= i < lstop && 0 <= j < |right.rows| ensures Key(left, i) != Key(right, j) {
      GroupIsWhole(Labels(left.cols), left, l, i);
      if j >= r { BelowAll(Labels(left.cols), right, Key(left, l), r, j); }
    }
    NestedLoopSkips(left, right, l, lstop);
  }

  lemma RightStep(left: Table, right: Table, l: nat, r: nat)
    requires Mergeable(left, right) && l < |left.rows| && r < |right.rows| && Unmatched(left, right, l, r)
    requires Key(left, l) != Key(right, r) && !KeyBefore(Labels(left.cols), Key(left, l), Key(right, r))
    ensures Unmatched(left, right, l, GroupEnd(right, r))
  {
    var labels, rstop := Labels(left.cols), GroupEnd(right, r);
    KeyBeforeTotal(labels, Key(left, l), Key(right, r));
    forall i, j | l <= i < |left.rows| && 0 <= j < rstop ensures Key(left, i) != Key(right, j) {
      if j >= r {
        GroupIsWhole(labels, right, r, j);
        BelowAll(labels, left, Key(right, r), l, i);
      }
    }
  }

  /** A key that `Less` may place before a lower one. */
  ghost predicate Misjudged(cols: seq<Column>, low: Row, high: Row) {
    && KeyBefore(Labels(cols), KeyOf(cols, low), KeyOf(cols, high))
    && !SameKey(KeyOf(cols, high), KeyOf(cols, low)) && MayLess(KeyOf(cols, high), KeyOf(cols, low), true)
  }

  lemma TwoRowsAreSorted(cols: seq<Column>, low: Row, high: Row)
    requires KeyBefore(Labels(cols), KeyOf(cols, low), KeyOf(cols, high))
    ensures KeySorted(Labels(cols), Table(cols, [high])) && KeySorted(Labels(cols), Table(cols, [low, high]))
  {
    KeyBeforeAsymmetric(Labels(cols), KeyOf(cols, low), KeyOf(cols, high));
  }

  /** The columns have the same tags, in whatever order. */
  predicate SameLabels(left: seq<Column>, right: seq<Column>) {
    && (forall name | name in Labels(left) :: name in Labels(right))
    && (forall name | name in Labels(right) :: name in Labels(left))
  }

  lemma SameLabelsSameKey(left: seq<Column>, right: seq<Column>, row: Row)
    requires SameLabels(left, right)
    ensures KeyOf(left, row) == KeyOf(right, row)
  {
  }

  lemma RowIsSkipped(left: seq<Column>, right: seq<Column>, low: Row, high: Row)
    requires SameLabels(left, right)
    requires !SameKey(KeyOf(left, high), KeyOf(left, low)) && MayLess(KeyOf(left, high), KeyOf(left, low), true)
    ensures MayEmit(Table(left, [high]), Table(right, [low, high]), 0, 0, [])
  {
    SameLabelsSameKey(left, right, low);
    assert GroupEnd(Table(left, [high]), 0) == 1;
  }

  lemma RowHasMatch(left: seq<Column>, right: seq<Column>, low: Row, high: Row)
    requires SameLabels(left, right)
    ensures NestedLoop(Table(left, [high]), Table(right, [low, high]), 0) != []
  {
    var l, r := Table(left, [high]), Table(right, [low, high]);
    SameLabelsSameKey(left, right, high);
    assert Key(l, 0) == Key(r, 1);
    assert InnerLoop(l, r, 0, 1) == [Joined(Key(l, 0), 0, 1)] + InnerLoop(l, r, 0, 2);
  }

  /** A merge can then skip a row that matches. */
  lemma MisjudgedKeyLosesRows(cols: seq<Column>, low: Row, high: Row)
    requires Misjudged(cols, low, high)
    ensures var left, right := Table(cols, [high]), Table(cols, [low, high]);
            && KeySorted(Labels(cols), left) && KeySorted(Labels(cols), right)
            && MayEmit(left, right, 0, 0, []) && NestedLoop(left, right, 0) != []
  {
    TwoRowsAreSorted(cols, low, high);
    RowIsSkipped(cols, cols, low, high);
    RowHasMatch(cols, cols, low, high);
  }

  /** A row whose tags are all empty, except for two. */
  function RowWith(t: string, x: string, u: string, y: string): Row {
    Row(0, map[t := x, u := y], map[])
  }

  lemma LowerMisjudged(cols: seq<Column>, t: string, u: string)
    requires t in Labels(cols) && u in Labels(cols) && t != u
    requires KeyBefore(Labels(cols), KeyOf(cols, RowWith(t, "x", u, "y")), KeyOf(cols, RowWith(t, "y", u, "x")))
    ensures Misjudged(cols, RowWith(t, "x", u, "y"), RowWith(t, "y", u, "x"))
  {
    var k, o := KeyOf(cols, RowWith(t, "x", u, "y")), KeyOf(cols, RowWith(t, "y", u, "x"));
    assert TagOf(k.tags, u) == "y" && TagOf(o.tags, u) == "x" && "x"[0] != "y"[0] && Before("x", "y");
    MayLessBy(o, k, u);
  }

  lemma TwoTagsOrdered(cols: seq<Column>, t: string, u: string)
    requires t in Labels(cols) && u in Labels(cols) && t != u
    ensures var k, o := KeyOf(cols, RowWith(t, "x", u, "y")), KeyOf(cols, RowWith(u, "x", t, "y"));
            KeyBefore(Labels(cols), k, o) || KeyBefore(Labels(cols), o, k)
  {
    var k, o := KeyOf(cols, RowWith(t, "x", u, "y")), KeyOf(cols, RowWith(u, "x", t, "y"));
    assert TagOf(k.tags, t) == "x" && TagOf(o.tags, t) == "y" && "x"[0] != "y"[0];
    KeyBeforeTotal(Labels(cols), k, o);
  }

  /** Any two tags give such rows. */
  lemma TwoTagsMisjudge(cols: seq<Column>, t: string, u: string) returns (low: Row, high: Row)
    requires t in Labels(cols) && u in Labels(cols) && t != u
    ensures Misjudged(cols, low, high) && low.time == high.time && low.values == high.values
  {
    low, high := RowWith(t, "x", u, "y"), RowWith(t, "y", u, "x");
    assert high == RowWith(u, "x", t, "y") && low == RowWith(u, "y", t, "x");
    TwoTagsOrdered(cols, t, u);
    if KeyBefore(Labels(cols), KeyOf(cols, low), KeyOf(cols, high)) {
      LowerMisjudged(cols, t, u);
    } else {
      LowerMisjudged(cols, u, t);
      low, high := high, low;
    }
  }

  /** Every merge of two tables over these columns, sorted by key, is their inner join. */
  ghost predicate MergesAll(cols: seq<Column>) {
    forall left: Table, right: Table, rows |
      && left.cols == cols && right.cols == cols
      && KeySorted(Labels(cols), left) && KeySorted(Labels(cols), right) && MayEmit(left, right, 0, 0, rows) ::
      rows == NestedLoop(left, right, 0)
  }

  /** The merge of key-sorted tables is the inner join exactly when there is at most one tag. */
  lemma MergesAllIffOneTag(cols: seq<Column>)
    ensures MergesAll(cols) <==> OneTag(cols)
  {
    if OneTag(cols) {
      OneTagMergesAll(cols);
    } else {
      var t, u :| t in Labels(cols) && u in Labels(cols) && t != u;
      TwoTagsLoseRows(cols, t, u);
    }
  }

  /** With any two tags there are tables whose merge can lose a row. */
  lemma TwoTagsLoseRows(cols: seq<Column>, t: string, u: string)
    requires t in Labels(cols) && u in Labels(cols) && t != u
    ensures !MergesAll(cols)
  {
    var low, high := TwoTagsMisjudge(cols, t, u);
    MisjudgedKeyLosesRows(cols, low, high);
    DifferentMerge(Table(cols, [high]), Table(cols, [low, high]), []);
  }

  lemma DifferentMerge(left: Table, right: Table, rows: seq<Joined>)
    requires left.cols == right.cols
    requires KeySorted(Labels(left.cols), left) && KeySorted(Labels(left.cols), right)
    requires MayEmit(left, right, 0, 0, rows) && rows != NestedLoop(left, right, 0)
    ensures !MergesAll(left.cols)
  {
  }

  lemma OneTagMergesAll(cols: seq<Column>)
    requires OneTag(cols)
    ensures MergesAll(cols)
  {
    forall left: Table, right: Table, rows |
      && left.cols == cols && right.cols == cols
      && KeySorted(Labels(cols), left) && KeySorted(Labels(cols), right) && MayEmit(left, right, 0, 0, rows)
      ensures rows == NestedLoop(left, right, 0)
    {
      OneTagMerges(left, right, rows);
    }
  }

  lemma OneTagMerges(left: Table, right: Table, rows: seq<Joined>)
    requires KeySorted(Labels(left.cols), left) && KeySorted(Labels(left.cols), right)
    requires OneTag(left.cols)
    requires MayEmit(left, right, 0, 0, rows)
    ensures rows == NestedLoop(left, right, 0)
  {
    forall i, j | 0 <= i < |left.rows| && 0 <= j < |right.rows|
      ensures Reliable(Labels(left.cols), Key(left, i), Key(right, j))
    {
      OneTagIsReliable(Labels(left.cols), Key(left, i), Key(right, j));
    }
    MergeIsNestedLoop(left, right, 0, 0, rows);
  }

  const EXAMPLE_COLS: seq<Column> := [TimeCol, TagCol("a"), TagCol("b")]
  const LOW := RowWith("a", "x", "b", "y")
  const HIGH := RowWith("a", "y", "b", "x")

  lemma ExampleLabels()
    ensures Labels(EXAMPLE_COLS) == ["a", "b"]
  {
    var cols := EXAMPLE_COLS;
    assert cols[1..] == [TagCol("a"), TagCol("b")] && cols[1..][1..] == [TagCol("b")] && cols[1..][1..][1..] == [];
  }

  lemma ExampleIsMisjudged()
    ensures Misjudged(EXAMPLE_COLS, LOW, HIGH)
  {
    ExampleLabels();
    var k, o := KeyOf(EXAMPLE_COLS, LOW), KeyOf(EXAMPLE_COLS, HIGH);
    assert TagOf(k.tags, "a") == "x" && TagOf(o.tags, "a") == "y" && "x"[0] != "y"[0] && Before("x", "y");
    assert "a"[0] != "b"[0];
    LowerMisjudged(EXAMPLE_COLS, "a", "b");
  }

  /** With two tags a merge can go wrong: both tables are sorted and share a key, but
      when `Less` happens to compare the second tag first, nothing is emitted. */
  lemma TwoTagsCanLoseRows()
    ensures var left, right := Table(EXAMPLE_COLS, [HIGH]), Table(EXAMPLE_COLS, [LOW, HIGH]);
            && KeySorted(["a", "b"], left) && KeySorted(["a", "b"], right)
            && MayEmit(left, right, 0, 0, []) && NestedLoop(left, right, 0) != []
  {
    ExampleLabels();
    ExampleIsMisjudged();
    MisjudgedKeyLosesRows(EXAMPLE_COLS, LOW, HIGH);
  }

  // ----- what sorting delivers -----

  /** The order of rows under a list of columns, as the block sorter compares them. */
  predicate RowBefore(cols: seq<Column>, x: Row, y: Row) {
    cols != [] &&
    match cols[0]
    case TimeCol => x.time < y.time || (x.time == y.time && RowBefore(cols[1..], x, y))
    case TagCol(name) =>
      if TagOf(x.tags, name) != TagOf(y.tags, name) then Before(TagOf(x.tags, name), TagOf(y.tags, name))
      else RowBefore(cols[1..], x, y)
    case ValueCol(name) =>
      var a, b := ValueOf(x, name), ValueOf(y, name);
      a < b || (a == b && RowBefore(cols[1..], x, y))
  }

  function ValueOf(row: Row, name: string): int {
    if name in row.values then row.values[name] else 0
  }

  predicate SortedBy(cols: seq<Column>, t: Table) {
    forall i, j | 0 <= i < j < |t.rows| :: !RowBefore(cols, t.rows[j], t.rows[i])
  }

  predicate Sorted(t: Table) {
    SortedBy(t.cols, t)
  }

  /** No value column comes before a tag column. */
  predicate TagsLead(cols: seq<Column>) {
    forall i, j | 0 <= i < j < |cols| :: cols[i].ValueCol? ==> !cols[j].TagCol?
  }

  lemma {:induction false} TagsDecide(cols: seq<Column>, x: Row, y: Row)
    requires TagsLead(cols) && x.time == y.time && TagsBefore(Labels(cols), x.tags, y.tags)
    ensures RowBefore(cols, x, y)
  {
    match cols[0]
    case TimeCol =>
      assert Labels(cols) == Labels(cols[1..]);
      TagsDecide(cols[1..], x, y);
    case TagCol(name) =>
      assert Labels(cols)[1..] == Labels(cols[1..]);
      if TagOf(x.tags, name) == TagOf(y.tags, name) { TagsDecide(cols[1..], x, y); }
    case ValueCol(_) => NoLabels(cols);
  }

  lemma {:induction false} NoLabels(cols: seq<Column>)
    requires forall i | 0 <= i < |cols| :: !cols[i].TagCol?
    ensures Labels(cols) == []
  {
    if cols != [] { NoLabels(cols[1..]); }
  }

  lemma {:induction false} KeyTagsDecide(cols: seq<Column>, labels: seq<string>, x: Row, y: Row)
    requires forall l | l in labels :: l in Labels(cols)
    ensures TagsBefore(labels, KeyOf(cols, x).tags, KeyOf(cols, y).tags) <==> TagsBefore(labels, x.tags, y.tags)
  {
    if labels != [] { KeyTagsDecide(cols, labels[1..], x, y); }
  }

  /** Time first, and no other time column: how the join tables are laid out. */
  predicate TimeFirst(cols: seq<Column>) {
    cols != [] && cols[0] == TimeCol && TimeCol !in cols[1..]
  }

  /** Sorting by columns that start with time and hold the tags of a table, before any values,
      sorts the table by key. */
  lemma SortedIsKeySorted(cols: seq<Column>, t: Table)
    requires cols != [] && cols[0] == TimeCol && TagsLead(cols[1..]) && SortedBy(cols, t)
    requires forall name :: name in Labels(t.cols) <==> name in Labels(cols)
    ensures KeySorted(Labels(cols), t)
  {
    var labels := Labels(cols);
    assert labels == Labels(cols[1..]);
    forall i, j | 0 <= i < j < |t.rows| ensures !KeyBefore(labels, Key(t, j), Key(t, i)) {
      var x, y := t.rows[j], t.rows[i];
      KeyTagsDecide(t.cols, labels, x, y);
      if x.time == y.time && TagsBefore(labels, x.tags, y.tags) { TagsDecide(cols[1..], x, y); }
    }
  }

  lemma {:induction false} EqualCellsSkip(cols: seq<Column>, i: nat, x: Row, y: Row)
    requires i <= |cols| && x.time == y.time
    requires forall k | 0 <= k < i :: cols[k].TagCol? ==> TagOf(x.tags, cols[k].name) == TagOf(y.tags, cols[k].name)
    requires forall k | 0 <= k < i :: cols[k].ValueCol? ==> ValueOf(x, cols[k].name) == ValueOf(y, cols[k].name)
    ensures RowBefore(cols, x, y) <==> RowBefore(cols[i..], x, y)
    decreases i
  {
    if i == 0 {
      assert cols[0..] == cols;
    } else {
      assert cols[1..][i - 1..] == cols[i..];
      EqualCellsSkip(cols[1..], i - 1, x, y);
    }
  }

  lemma {:induction false} OnlyTagDecides(
    labels: seq<string>, k: map<string, string>, o: map<string, string>, t: string)
    requires t in labels && TagOf(k, t) != TagOf(o, t) && forall l | l != t :: TagOf(k, l) == TagOf(o, l)
    ensures TagsBefore(labels, k, o) <==> Before(TagOf(k, t), TagOf(o, t))
  {
    if labels[0] != t { OnlyTagDecides(labels[1..], k, o, t); }
  }

  predicate DistinctNames(cols: seq<Column>) {
    forall i, j | 0 <= i < j < |cols| && !cols[i].TimeCol? && !cols[j].TimeCol? :: cols[i].name != cols[j].name
  }

  /** A value column before a tag column: a table of two rows, sorted by its columns but
      not by key. */
  lemma ValueFirstMisleads(cols: seq<Column>, i: nat, j: nat) returns (t: Table)
    requires DistinctNames(cols) && i < j < |cols| && cols[i].ValueCol? && cols[j].TagCol?
    ensures t.cols == cols && |t.rows| == 2 && Sorted(t) && !KeySorted(Labels(cols), t)
    ensures !SameKey(Key(t, 0), Key(t, 1)) && MayLess(Key(t, 0), Key(t, 1), false)
  {
    var v, tag := cols[i].name, cols[j].name;
    var y, x := Row(0, map[tag := "y"], map[v := 0]), Row(0, map[tag := "x"], map[v := 1]);
    t := Table(cols, [y, x]);
    EqualCellsSkip(cols, i, x, y);
    assert cols[i..][0] == cols[i];
    assert ValueOf(x, v) == 1 && ValueOf(y, v) == 0;
    assert !RowBefore(cols, x, y);
    LabelListed(cols, j);
    assert "x"[0] != "y"[0] && Before("x", "y");
    assert TagOf(x.tags, tag) == "x" && TagOf(y.tags, tag) == "y";
    OnlyTagDecides(Labels(cols), x.tags, y.tags, tag);
    KeyTagsDecide(cols, Labels(cols), x, y);
    assert KeyBefore(Labels(cols), Key(t, 1), Key(t, 0));
    MayLessBy(Key(t, 0), Key(t, 1), tag);
  }

  /** Sorting by all columns in column order delivers key-sorted tables exactly when no
      value column comes before a tag column. */
  lemma SortDeliversIffTagsLead(cols: seq<Column>)
    requires TimeFirst(cols) && DistinctNames(cols)
    ensures (forall rows :: Sorted(Table(cols, rows)) ==> KeySorted(Labels(cols), Table(cols, rows)))
            <==> TagsLead(cols[1..])
  {
    if TagsLead(cols[1..]) {
      forall rows | Sorted(Table(cols, rows)) ensures KeySorted(Labels(cols), Table(cols, rows)) {
        SortedIsKeySorted(cols, Table(cols, rows));
      }
    } else {
      var i, j :| 0 <= i < j < |cols[1..]| && cols[1..][i].ValueCol? && cols[1..][j].TagCol?;
      var t := ValueFirstMisleads(cols, i + 1, j + 1);
      assert t == Table(cols, t.rows);
    }
  }

  // ----- sorting the right table by the columns of the left one -----

  predicate SameLabel(c: Column, d: Column) {
    if c.TimeCol? || d.TimeCol? then c == d else c.name == d.name
  }

  /** The column the sorter takes for a label: the first one that has it, else the column `first`. */
  function Find(cols: seq<Column>, c: Column, first: Column): Column {
    if cols == [] then first else if SameLabel(cols[0], c) then cols[0] else Find(cols[1..], c, first)
  }

  /** The columns of a table that sorting it by the labels of `order` compares. */
  function SortColumns(order: seq<Column>, cols: seq<Column>): (r: seq<Column>)
    requires cols != []
    ensures |r| == |order|
  {
    if order == [] then [] else [Find(cols, order[0], cols[0])] + SortColumns(order[1..], cols)
  }

  lemma {:induction false} FindTag(cols: seq<Column>, c: Column)
    requires DistinctNames(cols) && !c.TimeCol?
    ensures var f := Find(cols, c, TimeCol);
            && (f.TagCol? <==> c.name in Labels(cols)) && (f.TagCol? ==> f.name == c.name)
  {
    if cols != [] {
      FindTag(cols[1..], c);
      if SameLabel(cols[0], c) && !cols[0].TagCol? {
        NameNotListed(cols, c.name);
      }
    }
  }

  lemma {:induction false} NameNotListed(cols: seq<Column>, name: string)
    requires forall j | 0 <= j < |cols| :: cols[j] != TagCol(name)
    ensures name !in Labels(cols)
  {
    if cols != [] { NameNotListed(cols[1..], name); }
  }

  lemma {:induction false} FindTime(cols: seq<Column>)
    ensures Find(cols, TimeCol, TimeCol) == TimeCol
  {
    if cols != [] { FindTime(cols[1..]); }
  }

  /** The tables have the same tags, and every column has its own label. */
  predicate SameTags(left: seq<Column>, right: seq<Column>) {
    && TimeFirst(left) && TimeFirst(right) && DistinctNames(left) && DistinctNames(right)
    && SameLabels(left, right)
  }

  /** A column of the left table is looked up as a tag exactly when it is one. */
  lemma TagFindsTag(left: seq<Column>, right: seq<Column>, i: nat)
    requires SameTags(left, right) && i < |left|
    ensures var c, f := left[i], Find(right, left[i], right[0]);
            if c.TagCol? then f == c else !f.TagCol? && (c.TimeCol? ==> f.TimeCol?)
  {
    var c := left[i];
    if c.TimeCol? {
      FindTime(right);
    } else {
      FindTag(right, c);
      if c.TagCol? {
        LabelListed(left, i);
      } else {
        NameNotListed(left, c.name);
      }
    }
  }

  /** So the columns compared have the labels of the left table, in the same order. */
  lemma {:induction false} SortColumnsLabels(left: seq<Column>, right: seq<Column>, from: nat)
    requires SameTags(left, right) && from <= |left|
    ensures Labels(SortColumns(left[from..], right)) == Labels(left[from..])
    ensures forall i | from <= i < |left| ::
              SortColumns(left[from..], right)[i - from] == Find(right, left[i], right[0])
    decreases |left| - from
  {
    if from < |left| {
      assert left[from..][1..] == left[from + 1..];
      SortColumnsLabels(left, right, from + 1);
      TagFindsTag(left, right, from);
      var sc, rest := SortColumns(left[from..], right), SortColumns(left[from + 1..], right);
      assert sc == [sc[0]] + rest && sc[1..] == rest;
      forall i | from < i < |left| ensures sc[i - from] == Find(right, left[i], right[0]) {
        assert sc[i - from] == rest[i - (from + 1)];
      }
    }
  }

  lemma SortColumnsLead(left: seq<Column>, right: seq<Column>)
    requires SameTags(left, right) && TagsLead(left[1..])
    ensures var sc := SortColumns(left, right);
            sc != [] && sc[0] == TimeCol && TagsLead(sc[1..]) && Labels(sc) == Labels(left)
  {
    var sc := SortColumns(left, right);
    assert left[0..] == left;
    SortColumnsLabels(left, right, 0);
    TagFindsTag(left, right, 0);
    assert forall i | 0 <= i < |left| :: sc[i - 0] == Find(right, left[i], right[0]);
    forall i, j | 0 <= i < j < |sc[1..]| && sc[1..][i].ValueCol? ensures !sc[1..][j].TagCol? {
      assert sc[1..][i] == sc[i + 1] && sc[1..][j] == sc[j + 1];
      ValueFindsNoTagBehind(left, right, i, j);
    }
  }

  lemma ValueFindsNoTagBehind(left: seq<Column>, right: seq<Column>, i: nat, j: nat)
    requires SameTags(left, right) && TagsLead(left[1..]) && i < j < |left| - 1
    requires Find(right, left[i + 1], right[0]).ValueCol?
    ensures !Find(right, left[j + 1], right[0]).TagCol?
  {
    TagFindsTag(left, right, i + 1);
    TagFindsTag(left, right, j + 1);
    assert left[1..][i] == left[i + 1] && left[1..][j] == left[j + 1];
  }

  /** Put together: two tables with the same tags, at most one, whatever their value columns; in
      the left one time comes first and the tag before the values. Sorting both by the labels of
      the left one and merging them gives the inner join. */
  lemma JoinIsInnerJoin(left: Table, right: Table, rows: seq<Joined>)
    requires SameTags(left.cols, right.cols) && TagsLead(left.cols[1..])
    requires OneTag(left.cols)
    requires SortedBy(SortColumns(left.cols, left.cols), left) && SortedBy(SortColumns(left.cols, right.cols), right)
    requires MayEmit(left, right, 0, 0, rows)
    ensures rows == NestedLoop(left, right, 0)
  {
    SortColumnsLead(left.cols, left.cols);
    SortColumnsLead(left.cols, right.cols);
    SortedIsKeySorted(SortColumns(left.cols, left.cols), left);
    SortedIsKeySorted(SortColumns(left.cols, right.cols), right);
    OneTagMerges(left, right, rows);
  }

  // ----- sorting and merging, for any columns -----

  /** Sorting any two tables over these columns by the labels of the left one, and merging them,
      gives their inner join. */
  ghost predicate JoinsAll(left: seq<Column>, right: seq<Column>)
    requires left != [] && right != []
  {
    forall l: Table, r: Table, rows | Prepared(left, right, l, r) && MayEmit(l, r, 0, 0, rows) ::
      rows == NestedLoop(l, r, 0)
  }

  /** Two tables over these columns, sorted for the join. */
  ghost predicate Prepared(left: seq<Column>, right: seq<Column>, l: Table, r: Table)
    requires left != [] && right != []
  {
    && l.cols == left && r.cols == right
    && SortedBy(SortColumns(left, left), l) && SortedBy(SortColumns(left, right), r)
  }

  lemma DifferentJoin(left: seq<Column>, right: seq<Column>, l: Table, r: Table, rows: seq<Joined>)
    requires left != [] && right != [] && Prepared(left, right, l, r)
    requires MayEmit(l, r, 0, 0, rows) && rows != NestedLoop(l, r, 0)
    ensures !JoinsAll(left, right)
  {
  }

  /** A table is sorted by its own columns. */
  lemma {:induction false} SortColumnsSelf(cols: seq<Column>, from: nat)
    requires TimeFirst(cols) && DistinctNames(cols) && from <= |cols|
    ensures SortColumns(cols[from..], cols) == cols[from..]
    decreases |cols| - from
  {
    if from < |cols| {
      assert cols[from..][1..] == cols[from + 1..];
      SortColumnsSelf(cols, from + 1);
      FindSelf(cols, 0, from);
      assert cols[0..] == cols;
      assert cols[from..] == [cols[from]] + cols[from + 1..];
    }
  }

  lemma {:induction false} FindSelf(cols: seq<Column>, k: nat, i: nat)
    requires TimeFirst(cols) && DistinctNames(cols) && k <= i < |cols|
    ensures Find(cols[k..], cols[i], cols[0]) == cols[i]
    decreases i - k
  {
    assert cols[k..][0] == cols[k];
    if k < i {
      assert cols[k..][1..] == cols[k + 1..];
      assert cols[1..][i - 1] == cols[i];
      FindSelf(cols, k + 1, i);
    }
  }

  /** Rows that differ in their tags only are sorted by these. */
  lemma {:induction false} TagsAloneDecide(cols: seq<Column>, x: Row, y: Row)
    requires x.time == y.time && x.values == y.values
    ensures RowBefore(cols, x, y) <==> TagsBefore(Labels(cols), x.tags, y.tags)
  {
    if cols != [] {
      TagsAloneDecide(cols[1..], x, y);
      if cols[0].TagCol? {
        assert Labels(cols)[1..] == Labels(cols[1..]);
      } else {
        assert Labels(cols) == Labels(cols[1..]);
      }
    }
  }

  lemma TwoTagsLoseJoins(left: seq<Column>, right: seq<Column>, t: string, u: string)
    requires SameTags(left, right) && t in Labels(left) && u in Labels(left) && t != u
    ensures !JoinsAll(left, right)
  {
    var low, high := TwoTagsMisjudge(left, t, u);
    RowIsSkipped(left, right, low, high);
    RowHasMatch(left, right, low, high);
    KeyOrderIsRowOrder(left, right, low, high);
    DifferentJoin(left, right, Table(left, [high]), Table(right, [low, high]), []);
  }

  lemma KeyOrderIsRowOrder(left: seq<Column>, right: seq<Column>, low: Row, high: Row)
    requires SameTags(left, right) && low.time == high.time && low.values == high.values
    requires KeyBefore(Labels(left), KeyOf(left, low), KeyOf(left, high))
    ensures Prepared(left, right, Table(left, [high]), Table(right, [low, high]))
  {
    KeyTagsDecide(left, Labels(left), high, low);
    assert left[0..] == left;
    SortColumnsLabels(left, right, 0);
    TagsAloneDecide(SortColumns(left, right), high, low);
    KeyBeforeAsymmetric(Labels(left), KeyOf(left, low), KeyOf(left, high));
  }

  /** A value column of the left table before a tag: two sorted tables whose merge loses a row. */
  lemma ValueFirstLosesJoins(left: seq<Column>, right: seq<Column>, i: nat, j: nat)
    requires SameTags(left, right) && i < j < |left| && left[i].ValueCol? && left[j].TagCol?
    ensures !JoinsAll(left, right)
  {
    var l := ValueFirstMisleads(left, i, j);
    var r := Table(right, [l.rows[1]]);
    UnsortedKeysLoseRow(left, right, l.rows[0], l.rows[1]);
    assert l == Table(left, [l.rows[0], l.rows[1]]);
    assert left[0..] == left;
    SortColumnsSelf(left, 0);
    DifferentJoin(left, right, l, r, []);
  }

  lemma UnsortedKeysLoseRow(left: seq<Column>, right: seq<Column>, first: Row, second: Row)
    requires SameLabels(left, right) && !SameKey(KeyOf(left, first), KeyOf(left, second))
    requires MayLess(KeyOf(left, first), KeyOf(left, second), false)
    ensures MayEmit(Table(left, [first, second]), Table(right, [second]), 0, 0, [])
    ensures NestedLoop(Table(left, [first, second]), Table(right, [second]), 0) != []
  {
    var l, r := Table(left, [first, second]), Table(right, [second]);
    SameLabelsSameKey(left, right, second);
    assert GroupEnd(r, 0) == 1;
    assert Key(l, 1) == Key(r, 0);
    assert InnerLoop(l, r, 1, 0) == [Joined(Key(l, 1), 1, 0)] + InnerLoop(l, r, 1, 1);
    assert NestedLoop(l, r, 1) == InnerLoop(l, r, 1, 0) + NestedLoop(l, r, 2);
  }

  /** The whole join is right for all tables over some columns, with the same tags, exactly when
      there is at most one tag and no value precedes it in the left table. */
  lemma JoinsAllIff(left: seq<Column>, right: seq<Column>)
    requires SameTags(left, right)
    ensures JoinsAll(left, right) <==> OneTag(left) && TagsLead(left[1..])
  {
    if !OneTag(left) {
      var t, u :| t in Labels(left) && u in Labels(left) && t != u;
      TwoTagsLoseJoins(left, right, t, u);
    } else if !TagsLead(left[1..]) {
      var i, j :| 0 <= i < j < |left[1..]| && left[1..][i].ValueCol? && left[1..][j].TagCol?;
      ValueFirstLosesJoins(left, right, i + 1, j + 1);
    } else {
      forall l: Table, r: Table, rows | Prepared(left, right, l, r) && MayEmit(l, r, 0, 0, rows)
        ensures rows == NestedLoop(l, r, 0)
      {
        JoinIsInnerJoin(l, r, rows);
      }
    }
  }

  /** The nested-loop join holds exactly the pairs with equal keys, each once. */
  lemma {:induction false} NestedLoopExact(left: Table, right: Table, from: nat, l: nat, r: nat)
    requires l < |left.rows| && r < |right.rows|
    ensures multiset(NestedLoop(left, right, from))[Joined(Key(left, l), l, r)]
            == if from <= l && Key(left, l) == Key(right, r) then 1 else 0
    decreases |left.rows| - from
  {
    if from < |left.rows| {
      var first, rest := InnerLoop(left, right, from, 0), NestedLoop(left, right, from + 1);
      NestedLoopExact(left, right, from + 1, l, r);
      InnerLoopExact(left, right, from, 0, l, r);
      CountSplits(first, rest, Joined(Key(left, l), l, r));
    }
  }

  lemma CountSplits(a: seq<Joined>, b: seq<Joined>, j: Joined)
    ensures multiset(a + b)[j] == multiset(a)[j] + multiset(b)[j]
  {
  }

  lemma {:induction false} InnerLoopExact(left: Table, right: Table, at: nat, from: nat, l: nat, r: nat)
    requires at < |left.rows| && l < |left.rows| && r < |right.rows|
    ensures multiset(InnerLoop(left, right, at, from))[Joined(Key(left, l), l, r)]
            == if at == l && from <= r && Key(left, l) == Key(right, r) then 1 else 0
    decreases |right.rows| - from
  {
    if from < |right.rows| {
      InnerLoopExact(left, right, at, from + 1, l, r);
      var first := if Key(left, at) == Key(right, from) then [Joined(Key(left, at), at, from)] else [];
      var rest := InnerLoop(left, right, at, from + 1);
      assert InnerLoop(left, right, at, from) == first + rest;
      CountSplits(first, rest, Joined(Key(left, l), l, r));
    }
  }

  // ----- what is emitted, in the cells of the tables -----

  /** The string of a row under a tag; a tag that is no column reads as empty. */
  function Cell(t: Table, i: nat, name: string): string
    requires i < |t.rows|
  {
    if TagCol(name) in t.cols then TagOf(t.rows[i].tags, name) else ""
  }

  /** Two rows agree on the time and on the tags of the left table. */
  ghost predicate CellsAgree(left: Table, right: Table, l: nat, r: nat)
    requires l < |left.rows| && r < |right.rows|
  {
    && left.rows[l].time == right.rows[r].time
    && forall name | TagCol(name) in left.cols :: Cell(left, l, name) == Cell(right, r, name)
  }

  /** An emitted row has the time and the tags of the two rows it joins, and no other tags. */
  ghost predicate FromCells(left: Table, right: Table, j: Joined) {
    && j.l < |left.rows| && j.r < |right.rows|
    && j.key.time == left.rows[j.l].time == right.rows[j.r].time
    && (forall name :: name in j.key.tags <==> TagCol(name) in left.cols)
    && forall name | TagCol(name) in left.cols ::
         name in j.key.tags && j.key.tags[name] == TagOf(left.rows[j.l].tags, name) == Cell(right, j.r, name)
  }

  lemma LabelsIff(cols: seq<Column>, name: string)
    ensures name in Labels(cols) <==> TagCol(name) in cols
  {
    if TagCol(name) in cols {
      var j :| 0 <= j < |cols| && cols[j] == TagCol(name);
      LabelListed(cols, j);
    } else {
      NameNotListed(cols, name);
    }
  }

  lemma KeyCells(t: Table, i: nat)
    requires i < |t.rows|
    ensures Key(t, i).time == t.rows[i].time
    ensures forall name :: name in Key(t, i).tags <==> TagCol(name) in t.cols
    ensures forall name :: TagOf(Key(t, i).tags, name) == Cell(t, i, name)
  {
    forall name
      ensures name in Key(t, i).tags <==> TagCol(name) in t.cols
      ensures TagOf(Key(t, i).tags, name) == Cell(t, i, name)
    {
      LabelsIff(t.cols, name);
    }
  }

  /** The keys are the same to the merge exactly when the cells agree. */
  lemma SameKeyIffCellsAgree(left: Table, right: Table, l: nat, r: nat)
    requires l < |left.rows| && r < |right.rows|
    ensures SameKey(Key(left, l), Key(right, r)) <==> CellsAgree(left, right, l, r)
  {
    KeyCells(left, l);
    KeyCells(right, r);
    assert forall name | TagCol(name) in left.cols :: Key(left, l).tags[name] == Cell(left, l, name);
  }

  lemma JoinedFromCells(left: Table, right: Table, l: nat, r: nat)
    requires l < |left.rows| && r < |right.rows| && SameKey(Key(left, l), Key(right, r))
    ensures FromCells(left, right, Joined(Key(left, l), l, r))
  {
    KeyCells(left, l);
    KeyCells(right, r);
    SameKeyIffCellsAgree(left, right, l, r);
    forall name | TagCol(name) in left.cols
      ensures Key(left, l).tags[name] == TagOf(left.rows[l].tags, name) == Cell(right, r, name)
    {
      assert TagOf(Key(left, l).tags, name) == Cell(left, l, name);
    }
  }

  lemma {:induction false} LineAt(key: JoinKey, l: nat, r: nat, rstop: nat, k: nat)
    requires k < |Line(key, l, r, rstop)|
    ensures r + k < rstop && Line(key, l, r, rstop)[k] == Joined(key, l, r + k)
    decreases k
  {
    if k > 0 { LineAt(key, l, r + 1, rstop, k - 1); }
  }

  lemma {:induction false} BlockAt(key: JoinKey, l: nat, lstop: nat, r: nat, rstop: nat, k: nat)
    requires k < |Block(key, l, lstop, r, rstop)|
    ensures var j := Block(key, l, lstop, r, rstop)[k];
            j.key == key && l <= j.l < lstop && r <= j.r < rstop
    decreases lstop - l
  {
    var line := Line(key, l, r, rstop);
    if k < |line| {
      LineAt(key, l, r, rstop, k);
    } else {
      BlockAt(key, l + 1, lstop, r, rstop, k - |line|);
    }
  }

  /** The order of emitted rows: by the left row, then by the right one. */
  predicate Ahead(i: Joined, j: Joined) {
    i.l < j.l || (i.l == j.l && i.r < j.r)
  }

  lemma {:induction false} BlockAscends(key: JoinKey, l: nat, lstop: nat, r: nat, rstop: nat, a: nat, b: nat)
    requires a < b < |Block(key, l, lstop, r, rstop)|
    ensures Ahead(Block(key, l, lstop, r, rstop)[a], Block(key, l, lstop, r, rstop)[b])
    decreases lstop - l
  {
    var line := Line(key, l, r, rstop);
    if a < |line| { LineAt(key, l, r, rstop, a); }
    if b < |line| {
      LineAt(key, l, r, rstop, b);
    } else {
      BlockAt(key, l + 1, lstop, r, rstop, b - |line|);
      if |line| <= a { BlockAscends(key, l + 1, lstop, r, rstop, a - |line|, b - |line|); }
    }
  }

  lemma PairFromCells(left: Table, right: Table, l: nat, r: nat, i: nat, m: nat)
    requires l < |left.rows| && r < |right.rows| && SameKey(Key(left, l), Key(right, r))
    requires l <= i < GroupEnd(left, l) && r <= m < GroupEnd(right, r)
    ensures FromCells(left, right, Joined(Key(left, l), i, m))
  {
    assert Key(left, i) == Key(left, l) by { GroupHasKey(left, l, l + 1, i); }
    assert Key(right, m) == Key(right, r) by { GroupHasKey(right, r, r + 1, m); }
    JoinedFromCells(left, right, i, m);
  }

  lemma BlockFromCells(left: Table, right: Table, l: nat, r: nat, k: nat)
    requires l < |left.rows| && r < |right.rows| && SameKey(Key(left, l), Key(right, r))
    requires k < |Block(Key(left, l), l, GroupEnd(left, l), r, GroupEnd(right, r))|
    ensures var j := Block(Key(left, l), l, GroupEnd(left, l), r, GroupEnd(right, r))[k];
            FromCells(left, right, j) && l <= j.l < GroupEnd(left, l) && r <= j.r
  {
    var key, lstop, rstop := Key(left, l), GroupEnd(left, l), GroupEnd(right, r);
    var j := Block(key, l, lstop, r, rstop)[k];
    BlockAt(key, l, lstop, r, rstop, k);
    PairFromCells(left, right, l, r, j.l, j.r);
    assert j == Joined(key, j.l, j.r);
  }

  /** On any two tables, sorted or not, every emitted row is built from cells that agree. */
  lemma {:induction false} EmittedFromCells(left: Table, right: Table, l: nat, r: nat, rows: seq<Joined>, k: nat)
    requires MayEmit(left, right, l, r, rows) && k < |rows|
    ensures FromCells(left, right, rows[k]) && l <= rows[k].l && r <= rows[k].r
    decreases |left.rows| - l + |right.rows| - r
  {
    var lstop, rstop := GroupEnd(left, l), GroupEnd(right, r);
    if SameKey(Key(left, l), Key(right, r)) {
      var block := Block(Key(left, l), l, lstop, r, rstop);
      if k < |block| {
        BlockFromCells(left, right, l, r, k);
      } else {
        EmittedFromCells(left, right, lstop, rstop, rows[|block|..], k - |block|);
      }
    } else if MayEmit(left, right, lstop, r, rows) {
      EmittedFromCells(left, right, lstop, r, rows, k);
    } else {
      EmittedFromCells(left, right, l, rstop, rows, k);
    }
  }

  /** And the rows come in order, so that no pair is emitted twice. */
  lemma {:induction false} EmittedAscends(
    left: Table, right: Table, l: nat, r: nat, rows: seq<Joined>, a: nat, b: nat)
    requires MayEmit(left, right, l, r, rows) && a < b < |rows|
    ensures Ahead(rows[a], rows[b])
    decreases |left.rows| - l + |right.rows| - r
  {
    var key, lstop, rstop := Key(left, l), GroupEnd(left, l), GroupEnd(right, r);
    if SameKey(key, Key(right, r)) {
      var block := Block(key, l, lstop, r, rstop);
      if b < |block| {
        BlockAscends(key, l, lstop, r, rstop, a, b);
      } else if a < |block| {
        BlockAt(key, l, lstop, r, rstop, a);
        EmittedFromCells(left, right, lstop, rstop, rows[|block|..], b - |block|);
      } else {
        EmittedAscends(left, right, lstop, rstop, rows[|block|..], a - |block|, b - |block|);
      }
    } else if MayEmit(left, right, lstop, r, rows) {
      EmittedAscends(left, right, lstop, r, rows, a, b);
    } else {
      EmittedAscends(left, right, l, rstop, rows, a, b);
    }
  }

  /** The number of emitted rows that join row `l` of the left table with row `r` of the right one. */
  function Times(rows: seq<Joined>, l: nat, r: nat): nat {
    if rows == [] then 0 else (if rows[0].l == l && rows[0].r == r then 1 else 0) + Times(rows[1..], l, r)
  }

  lemma {:induction false} TimesInOrder(rows: seq<Joined>, l: nat, r: nat)
    requires forall a, b | 0 <= a < b < |rows| :: Ahead(rows[a], rows[b])
    ensures Times(rows, l, r) == if exists k | 0 <= k < |rows| :: rows[k].l == l && rows[k].r == r then 1 else 0
  {
    if rows != [] {
      assert forall k | 0 <= k < |rows[1..]| :: rows[1..][k] == rows[k + 1];
      TimesInOrder(rows[1..], l, r);
      if exists k | 0 < k < |rows| :: rows[k].l == l && rows[k].r == r {
        var k :| 0 < k < |rows| && rows[k].l == l && rows[k].r == r;
        assert Ahead(rows[0], rows[k]) && rows[1..][k - 1] == rows[k];
      }
    }
  }

  /** On any two tables a pair of rows is emitted at most once, and only if its cells agree. */
  lemma EmittedAtMostOnce(left: Table, right: Table, rows: seq<Joined>, l: nat, r: nat)
    requires MayEmit(left, right, 0, 0, rows) && l < |left.rows| && r < |right.rows|
    ensures Times(rows, l, r) <= if CellsAgree(left, right, l, r) then 1 else 0
  {
    forall a, b | 0 <= a < b < |rows| ensures Ahead(rows[a], rows[b]) {
      EmittedAscends(left, right, 0, 0, rows, a, b);
    }
    TimesInOrder(rows, l, r);
    if k: nat :| k < |rows| && rows[k].l == l && rows[k].r == r {
      EmittedFromCells(left, right, 0, 0, rows, k);
    }
  }

  /** Where the join is an inner join, every pair of rows is emitted exactly once if its cells agree. */
  lemma JoinEmitsExactly(left: Table, right: Table, rows: seq<Joined>, l: nat, r: nat)
    requires SameTags(left.cols, right.cols) && TagsLead(left.cols[1..]) && OneTag(left.cols)
    requires SortedBy(SortColumns(left.cols, left.cols), left) && SortedBy(SortColumns(left.cols, right.cols), right)
    requires MayEmit(left, right, 0, 0, rows) && l < |left.rows| && r < |right.rows|
    ensures Times(rows, l, r) == if CellsAgree(left, right, l, r) then 1 else 0
  {
    EmittedAtMostOnce(left, right, rows, l, r);
    if CellsAgree(left, right, l, r) {
      JoinIsInnerJoin(left, right, rows);
      SameKeyIffCellsAgree(left, right, l, r);
      SameLabelsEqualKeys(left, right, l, r);
      NestedLoopExact(left, right, 0, l, r);
      assert Joined(Key(left, l), l, r) in rows;
      OccursOnce(rows, Joined(Key(left, l), l, r));
    }
  }

  lemma SameLabelsEqualKeys(left: Table, right: Table, l: nat, r: nat)
    requires SameLabels(left.cols, right.cols) && l < |left.rows| && r < |right.rows|
    requires SameKey(Key(left, l), Key(right, r))
    ensures Key(left, l) == Key(right, r)
  {
    assert Key(left, l).tags.Keys == Key(right, r).tags.Keys;
    assert Key(left, l).tags == Key(right, r).tags;
  }

  lemma {:induction false} OccursOnce(rows: seq<Joined>, j: Joined)
    requires j in rows
    ensures Times(rows, j.l, j.r) > 0
  {
    if rows[0] != j { OccursOnce(rows[1..], j); }
  }
}
