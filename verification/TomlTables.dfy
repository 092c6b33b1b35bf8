/** cpptoml's parser as it builds the document tree: table headers, array-of-tables headers and
    key/value lines, each with its key already split at the dots. The tree of tables is a value
    the parser reassigns, and a table pointer is a place in it; rows of a table array only
    get appended, so a place keeps naming the same table. */
module TomlTables {
  type Key = string

  /** An element of a table. Scalars and plain arrays are leaves; the parser calls only scalars values. */
  datatype Entry =
    | Scalar(id: nat)
    | List(id: nat)
    | Sub(entries: map<Key, Entry>)
    | Tables(rows: seq<map<Key, Entry>>, isInline: bool)

  datatype Step = Name(key: Key) | Index(i: nat)

  type Place = seq<Step>

  datatype Option<T> = None | Some(value: T)

  // ---------- places ----------

  /** The element at a place. */
  function At(e: Entry, p: Place): (r: Option<Entry>)
    decreases |p|
  {
    if p == [] then Some(e)
    else
      match (e, p[0])
      case (Sub(entries), Name(k)) => if k in entries then At(entries[k], p[1..]) else None
      case (Tables(rows, _), Index(i)) => if i < |rows| then At(Sub(rows[i]), p[1..]) else None
      case _ => None
  }

  /** The tree with the element at p replaced; at a row of a table array only a table can stand. */
  function Put(e: Entry, p: Place, x: Entry): (r: Entry)
    requires At(e, p).Some? && At(e, p).value.Sub? && x.Sub?
    ensures p != [] ==> r.Sub? == e.Sub? && r.Tables? == e.Tables?
    decreases |p|
  {
    if p == [] then x
    else
      match (e, p[0])
      case (Sub(entries), Name(k)) => Sub(entries[k := Put(entries[k], p[1..], x)])
      case (Tables(rows, inl), Index(i)) =>
        var row := Put(Sub(rows[i]), p[1..], x);
        Tables(rows[i := row.entries], inl)
  }

  predicate IsLeaf(e: Entry) {
    e.Scalar? || e.List?
  }

  /** The leaf at a place, if there is one. */
  function LeafAt(e: Entry, p: Place): (r: Option<Entry>) {
    match At(e, p)
    case Some(x) => if IsLeaf(x) then Some(x) else None
    case None => None
  }

  lemma {:induction false} AtAppend(e: Entry, p: Place, q: Place)
    ensures At(e, p + q) == if At(e, p).Some? then At(At(e, p).value, q) else None
    decreases |p|
  {
    if p == [] {
      assert p + q == q;
    } else {
      assert (p + q)[0] == p[0] && (p + q)[1..] == p[1..] + q;
      match (e, p[0])
      case (Sub(entries), Name(k)) => if k in entries { AtAppend(entries[k], p[1..], q); }
      case (Tables(rows, _), Index(i)) => if i < |rows| { AtAppend(Sub(rows[i]), p[1..], q); }
      case _ =>
    }
  }

  /** Below p the new element shows. */
  lemma {:induction false} PutBelow(e: Entry, p: Place, x: Entry, q: Place)
    requires At(e, p).Some? && At(e, p).value.Sub? && x.Sub?
    ensures At(Put(e, p, x), p + q) == At(x, q)
    decreases |p|
  {
    if p == [] {
      assert p + q == q;
    } else {
      assert (p + q)[0] == p[0] && (p + q)[1..] == p[1..] + q;
      match (e, p[0])
      case (Sub(entries), Name(k)) => PutBelow(entries[k], p[1..], x, q);
      case (Tables(rows, _), Index(i)) => PutBelow(Sub(rows[i]), p[1..], x, q);
    }
  }

  /** What an element looks like to a header: containers keep their kind and number of rows. */
  predicate SameKind(a: Option<Entry>, b: Option<Entry>) {
    match (a, b)
    case (Some(Sub(_)), Some(Sub(_))) => true
    case (Some(Tables(r, i)), Some(Tables(s, j))) => |r| == |s| && i == j
    case _ => a == b
  }

  /** Elsewhere nothing shows: other places keep their elements, the places above keep their kind. */
  lemma {:induction false} PutElsewhere(e: Entry, p: Place, x: Entry, q: Place)
    requires At(e, p).Some? && At(e, p).value.Sub? && x.Sub? && !(p <= q)
    ensures SameKind(At(e, q), At(Put(e, p, x), q))
    decreases |p|
  {
    if q != [] {
      if p[0] == q[0] {
        match (e, p[0])
        case (Sub(entries), Name(k)) => PutElsewhere(entries[k], p[1..], x, q[1..]);
        case (Tables(rows, _), Index(i)) => PutElsewhere(Sub(rows[i]), p[1..], x, q[1..]);
      }
    }
  }

  // ---------- well-shaped trees ----------

  predicate RowsAt(e: Entry, q: Place) {
    At(e, q).Some? && At(e, q).value.Tables? ==> At(e, q).value.rows != []
  }

  /** Every table array has a row, so that its last row exists. */
  ghost predicate WellShaped(e: Entry) {
    forall q :: RowsAt(e, q)
  }

  predicate IsTable(root: Entry, p: Place) {
    At(root, p).Some? && At(root, p).value.Sub?
  }

  function TableAt(root: Entry, p: Place): (entries: map<Key, Entry>)
    requires IsTable(root, p)
  {
    At(root, p).value.entries
  }

  // ---------- the two ways a table changes ----------

  /** insert of a new key into the table at p. */
  function Insert(root: Entry, p: Place, key: Key, x: Entry): (r: Entry)
    requires IsTable(root, p)
  {
    Put(root, p, Sub(TableAt(root, p)[key := x]))
  }

  lemma InsertAt(root: Entry, p: Place, key: Key, x: Entry, q: Place)
    requires IsTable(root, p)
    ensures p + [Name(key)] <= q ==> At(Insert(root, p, key, x), q) == At(x, q[|p| + 1..])
    ensures !(p + [Name(key)] <= q) ==> SameKind(At(root, q), At(Insert(root, p, key, x), q))
  {
    var t := TableAt(root, p);
    if p <= q {
      var rest := q[|p|..];
      assert q == p + rest;
      PutBelow(root, p, Sub(t[key := x]), rest);
      AtAppend(root, p, rest);
      if rest != [] {
        assert q[|p|] == rest[0] && q[..|p| + 1] == p + [rest[0]] && rest[1..] == q[|p| + 1..];
      }
    } else {
      PutElsewhere(root, p, Sub(t[key := x]), q);
    }
  }

  /** A new key brings in its element's leaves and disturbs no other. */
  lemma InsertLeaf(root: Entry, p: Place, key: Key, x: Entry, q: Place)
    requires IsTable(root, p) && key !in TableAt(root, p)
    ensures LeafAt(Insert(root, p, key, x), q)
            == if p + [Name(key)] <= q then LeafAt(x, q[|p| + 1..]) else LeafAt(root, q)
    ensures p + [Name(key)] <= q ==> LeafAt(root, q) == None
  {
    InsertAt(root, p, key, x, q);
    if p + [Name(key)] <= q {
      AbsentBelow(root, p, key, q);
    }
  }

  lemma AbsentBelow(root: Entry, p: Place, key: Key, q: Place)
    requires IsTable(root, p) && key !in TableAt(root, p) && p + [Name(key)] <= q
    ensures At(root, q) == None
  {
    var rest := q[|p|..];
    assert q == p + rest && rest[0] == Name(key);
    AtAppend(root, p, rest);
  }

  lemma InsertShape(root: Entry, p: Place, key: Key, x: Entry)
    requires IsTable(root, p) && WellShaped(root) && WellShaped(x)
    ensures WellShaped(Insert(root, p, key, x))
  {
    forall q: Place
      ensures RowsAt(Insert(root, p, key, x), q)
    {
      InsertAt(root, p, key, x, q);
      assert RowsAt(root, q);
      if p + [Name(key)] <= q {
        assert RowsAt(x, q[|p| + 1..]);
      }
    }
  }

  lemma EmptyTableShape()
    ensures WellShaped(Sub(map[])) && forall q :: LeafAt(Sub(map[]), q) == None
  {
    forall q: Place
      ensures RowsAt(Sub(map[]), q) && LeafAt(Sub(map[]), q) == None
    {
    }
  }

  /** push_back of an empty row on the table array under key. */
  function AddRow(root: Entry, p: Place, key: Key): (r: Entry)
    requires IsTable(root, p) && key in TableAt(root, p) && TableAt(root, p)[key].Tables?
  {
    var a := TableAt(root, p)[key];
    Insert(root, p, key, Tables(a.rows + [map[]], a.isInline))
  }

  lemma AddRowLeaf(root: Entry, p: Place, key: Key, q: Place)
    requires IsTable(root, p) && key in TableAt(root, p) && TableAt(root, p)[key].Tables?
    ensures LeafAt(AddRow(root, p, key), q) == LeafAt(root, q)
  {
    var a := TableAt(root, p)[key];
    var b := Tables(a.rows + [map[]], a.isInline);
    InsertAt(root, p, key, b, q);
    if p + [Name(key)] <= q {
      var rest := q[|p|..];
      assert q == p + rest && rest[0] == Name(key) && rest[1..] == q[|p| + 1..];
      AtAppend(root, p, rest);
      RowLeaf(a, rest[1..]);
    }
  }

  lemma RowLeaf(a: Entry, q: Place)
    requires a.Tables?
    ensures LeafAt(Tables(a.rows + [map[]], a.isInline), q) == LeafAt(a, q)
  {
    if q != [] && q[0].Index? && q[0].i == |a.rows| {
      EmptyTableShape();
      assert LeafAt(Sub(map[]), q[1..]) == None;
    }
  }

  lemma AddRowShape(root: Entry, p: Place, key: Key)
    requires IsTable(root, p) && key in TableAt(root, p) && TableAt(root, p)[key].Tables? && WellShaped(root)
    ensures WellShaped(AddRow(root, p, key))
  {
    var a := TableAt(root, p)[key];
    var b := Tables(a.rows + [map[]], a.isInline);
    forall q: Place
      ensures RowsAt(b, q)
    {
      if q != [] && q[0].Index? && q[0].i <= |a.rows| {
        if q[0].i == |a.rows| {
          EmptyTableShape();
          assert RowsAt(Sub(map[]), q[1..]);
        } else {
          AtAppend(root, p, [Name(key)] + q);
          assert ([Name(key)] + q)[1..] == q;
          assert RowsAt(root, p + ([Name(key)] + q));
        }
      }
    }
    InsertShape(root, p, key, b);
  }

  // ---------- headers ----------

  /** The tree and the table that key/value lines go to. */
  datatype State = State(root: Entry, curr: Place)

  datatype Outcome = Ok(state: State) | Rejected

  /** Step i of p, when it picks a row, picks the last one. */
  predicate LastRowAt(root: Entry, p: Place, i: nat)
    requires i < |p|
  {
    p[i].Index? ==>
      At(root, p[..i]).Some? && At(root, p[..i]).value.Tables? && |At(root, p[..i]).value.rows| == p[i].i + 1
  }

  ghost predicate InLastRows(root: Entry, p: Place) {
    forall i: nat :: i < |p| ==> LastRowAt(root, p, i)
  }

  /** Every table array has rows, and the current table exists, in the last row of every array around it. */
  ghost predicate Good(st: State) {
    WellShaped(st.root) && st.root.Sub? && IsTable(st.root, st.curr) && InLastRows(st.root, st.curr)
  }

  /** A change that keeps the kinds along p keeps p in last rows; so does one more step to a name or a last row. */
  lemma LastRowsKept(root: Entry, root': Entry, p: Place, more: Place)
    requires InLastRows(root, p) && forall i: nat :: i < |p| ==> SameKind(At(root, p[..i]), At(root', p[..i]))
    requires forall i: nat :: |p| <= i < |p| + |more| ==> LastRowAt(root', p + more, i)
    ensures InLastRows(root', p + more)
  {
    forall i: nat | i < |p + more|
      ensures LastRowAt(root', p + more, i)
    {
      if i < |p| {
        assert (p + more)[..i] == p[..i] && (p + more)[i] == p[i];
        assert LastRowAt(root, p, i);
      }
    }
  }

  /** Inserting at or below p changes no kind strictly above it. */
  lemma KindsAbove(root: Entry, p: Place, key: Key, x: Entry, c: Place)
    requires IsTable(root, p) && c <= p
    ensures forall i: nat :: i < |c| ==> SameKind(At(root, c[..i]), At(Insert(root, p, key, x), c[..i]))
  {
    forall i: nat | i < |c|
      ensures SameKind(At(root, c[..i]), At(Insert(root, p, key, x), c[..i]))
    {
      InsertAt(root, p, key, x, c[..i]);
    }
  }

  /** The keys a place spells. */
  function Names(p: Place): (ks: seq<Key>) {
    if p == [] then []
    else if p[0].Name? then [p[0].key] + Names(p[1..])
    else Names(p[1..])
  }

  lemma NamesOfRow(part: Key, row: Step)
    requires row.Index?
    ensures Names([Name(part), row]) == [part]
  {
    assert [Name(part), row][1..] == [row] && [row][1..] == [];
    assert Names([row]) == Names([]);
    assert Names([Name(part), row]) == [part] + Names([row]);
  }

  lemma {:induction false} NamesAppend(p: Place, q: Place)
    ensures Names(p + q) == Names(p) + Names(q)
  {
    if p == [] {
      assert p + q == q;
    } else {
      NamesAppend(p[1..], q);
      assert (p + q)[1..] == p[1..] + q && (p + q)[0] == p[0];
    }
  }

  function Entries(st: State): (entries: map<Key, Entry>)
    requires Good(st)
  {
    TableAt(st.root, st.curr)
  }

  /** The last row of a table array; defined only when there is one. */
  function Back(p: Place, key: Key, rows: seq<map<Key, Entry>>): (r: Place)
    requires rows != []
  {
    p + [Name(key), Index(|rows| - 1)]
  }

  /** A table array found while walking has a last row. */
  lemma BackExists(st: State, key: Key)
    requires Good(st) && key in Entries(st) && Entries(st)[key].Tables?
    ensures Entries(st)[key].rows != [] && IsTable(st.root, Back(st.curr, key, Entries(st)[key].rows))
  {
    AtAppend(st.root, st.curr, [Name(key)]);
    assert At(Sub(Entries(st)), [Name(key)]) == Some(Entries(st)[key]);
    assert RowsAt(st.root, st.curr + [Name(key)]);
    var rows := Entries(st)[key].rows;
    AtAppend(st.root, st.curr + [Name(key)], [Index(|rows| - 1)]);
    assert st.curr + [Name(key)] + [Index(|rows| - 1)] == Back(st.curr, key, rows);
  }

  /** One key part of a header: go into the table or the last row, or create an implicit table. */
  function Enter(st: State, part: Key): (r: Outcome)
    requires Good(st)
  {
    var t := Entries(st);
    if part in t then
      match t[part]
      case Sub(_) => Ok(st.(curr := st.curr + [Name(part)]))
      case Tables(rows, _) =>
        BackExists(st, part);
        Ok(st.(curr := Back(st.curr, part, rows)))
      case _ => Rejected
    else Ok(State(Insert(st.root, st.curr, part, Sub(map[])), st.curr + [Name(part)]))
  }

  /** The same leaves are in place. */
  ghost predicate SameLeaves(a: Entry, b: Entry) {
    forall q :: LeafAt(a, q) == LeafAt(b, q)
  }

  lemma EnterIsGood(st: State, part: Key)
    requires Good(st) && Enter(st, part).Ok?
    ensures var st' := Enter(st, part).state;
            Good(st') && SameLeaves(st.root, st'.root) && Names(st'.curr) == Names(st.curr) + [part]
  {
    var t, p, st' := Entries(st), st.curr, Enter(st, part).state;
    AtAppend(st.root, p, [Name(part)]);
    if part in t && t[part].Tables? {
      BackExists(st, part);
      var last := Index(|t[part].rows| - 1);
      assert p + [Name(part), last] == p + [Name(part)] + [last];
      assert (p + [Name(part), last])[..|p| + 1] == p + [Name(part)];
      NamesAppend(p, [Name(part), last]);
      NamesOfRow(part, last);
      LastRowsKept(st.root, st.root, p, [Name(part), last]);
    } else {
      if part !in t {
        EmptyTableShape();
        FreshContainer(st.root, p, part, Sub(map[]));
        KindsAbove(st.root, p, part, Sub(map[]), p);
      }
      NamesAppend(p, [Name(part)]);
      assert Names([Name(part)]) == [part] by { assert [Name(part)][1..] == []; }
      LastRowsKept(st.root, st'.root, p, [Name(part)]);
    }
  }

  ghost predicate NoLeaves(x: Entry) {
    forall q :: LeafAt(x, q) == None
  }

  /** A new element without leaves can be reached at its key, and no leaf moves. */
  lemma FreshContainer(root: Entry, p: Place, key: Key, x: Entry)
    requires IsTable(root, p) && key !in TableAt(root, p) && WellShaped(root) && WellShaped(x) && NoLeaves(x)
    ensures var r := Insert(root, p, key, x);
            WellShaped(r) && SameLeaves(root, r) && At(r, p + [Name(key)]) == Some(x)
  {
    var r := Insert(root, p, key, x);
    InsertShape(root, p, key, x);
    InsertAt(root, p, key, x, p + [Name(key)]);
    forall q: Place
      ensures LeafAt(root, q) == LeafAt(r, q)
    {
      InsertLeaf(root, p, key, x, q);
      if p + [Name(key)] <= q {
        assert LeafAt(x, q[|p| + 1..]) == None;
      }
    }
  }

  /** Redefinition check on a table that a header only re-enters. */
  predicate Redefined(t: map<Key, Entry>) {
    t == map[] || exists k :: k in t && t[k].Scalar?
  }

  /** parse_single_table over the key parts left; inserted tells whether one of them was new. */
  function SingleTable(st: State, path: seq<Key>, inserted: bool): (r: Outcome)
    requires Good(st)
    decreases |path|
  {
    if path == [] then
      if !inserted && Redefined(Entries(st)) then Rejected else Ok(st)
    else if path[0] == "" then Rejected
    else
      match Enter(st, path[0])
      case Rejected => Rejected
      case Ok(next) =>
        EnterIsGood(st, path[0]);
        SingleTable(next, path[1..], inserted || path[0] !in Entries(st))
  }

  /** The last part of an array header: append a row, or start the array with one. */
  function EnterRow(st: State, part: Key): (r: Outcome)
    requires Good(st)
  {
    var t := Entries(st);
    if part in t then
      match t[part]
      case Tables(rows, isInline) =>
        if isInline then Rejected
        else Ok(State(AddRow(st.root, st.curr, part), Back(st.curr, part, rows + [map[]])))
      case _ => Rejected
    else Ok(State(Insert(st.root, st.curr, part, Tables([map[]], false)), Back(st.curr, part, [map[]])))
  }

  lemma EnterRowIsGood(st: State, part: Key)
    requires Good(st) && EnterRow(st, part).Ok?
    ensures var st' := EnterRow(st, part).state;
            && Good(st') && SameLeaves(st.root, st'.root) && Entries(st') == map[]
            && Names(st'.curr) == Names(st.curr) + [part]
  {
    var st' := EnterRow(st, part).state;
    var p, t := st.curr, Entries(st);
    var rows := if part in t then t[part].rows + [map[]] else [map[]];
    var tables := Tables(rows, if part in t then t[part].isInline else false);
    RowAdded(st, part);
    hide WellShaped, SameLeaves, LeafAt, Insert, AddRow;
    assert st'.root == Insert(st.root, p, part, tables) by { RowIsInserted(st, part); }
    assert st'.curr == p + [Name(part), Index(|rows| - 1)];
    RowEntered(st, part, tables);
  }

  lemma RowIsInserted(st: State, part: Key)
    requires Good(st) && EnterRow(st, part).Ok?
    ensures var t := Entries(st);
            var rows := if part in t then t[part].rows + [map[]] else [map[]];
            EnterRow(st, part).state.root
            == Insert(st.root, st.curr, part, Tables(rows, if part in t then t[part].isInline else false))
  {
    hide Good, Insert;
  }

  /** The new row keeps the leaves and the shape. */
  lemma RowAdded(st: State, part: Key)
    requires Good(st) && EnterRow(st, part).Ok?
    ensures var root := EnterRow(st, part).state.root;
            WellShaped(root) && SameLeaves(st.root, root) && root.Sub?
  {
    var root := EnterRow(st, part).state.root;
    if part in Entries(st) {
      AddRowShape(st.root, st.curr, part);
      forall q
        ensures LeafAt(st.root, q) == LeafAt(root, q)
      {
        AddRowLeaf(st.root, st.curr, part, q);
      }
    } else {
      OneRow();
      FreshContainer(st.root, st.curr, part, Tables([map[]], false));
    }
  }

  /** The place of the last, empty row of a table array just put under a key. */
  lemma RowEntered(st: State, part: Key, tables: Entry)
    requires Good(st) && tables.Tables? && tables.rows != [] && tables.rows[|tables.rows| - 1] == map[]
    ensures var root := Insert(st.root, st.curr, part, tables);
            var c := st.curr + [Name(part), Index(|tables.rows| - 1)];
            && IsTable(root, c) && TableAt(root, c) == map[] && InLastRows(root, c)
            && Names(c) == Names(st.curr) + [part]
  {
    hide WellShaped, Insert;
    var p, last := st.curr, Index(|tables.rows| - 1);
    var root := Insert(st.root, p, part, tables);
    InsertAt(st.root, p, part, tables, p + [Name(part)]);
    assert (p + [Name(part)])[|p| + 1..] == [];
    AtAppend(root, p + [Name(part)], [last]);
    assert p + [Name(part)] + [last] == p + [Name(part), last];
    KindsAbove(st.root, p, part, tables, p);
    assert (p + [Name(part), last])[..|p| + 1] == p + [Name(part)];
    LastRowsKept(st.root, root, p, [Name(part), last]);
    NamesAppend(p, [Name(part), last]);
    NamesOfRow(part, last);
  }

  lemma OneRow()
    ensures WellShaped(Tables([map[]], false)) && NoLeaves(Tables([map[]], false))
  {
    EmptyTableShape();
    var e := Tables([map[]], false);
    forall q: Place
      ensures RowsAt(e, q) && LeafAt(e, q) == None
    {
      if q != [] && q[0] == Index(0) {
        assert RowsAt(Sub(map[]), q[1..]) && LeafAt(Sub(map[]), q[1..]) == None;
      }
    }
  }

  /** parse_table_array over the key parts left. */
  function TableArray(st: State, path: seq<Key>): (r: Outcome)
    requires Good(st) && path != []
    decreases |path|
  {
    if path[0] == "" then Rejected
    else if |path| == 1 then EnterRow(st, path[0])
    else
      match Enter(st, path[0])
      case Rejected => Rejected
      case Ok(next) =>
        EnterIsGood(st, path[0]);
        TableArray(next, path[1..])
  }

  /** A table header changes no leaf and ends in a table that its keys spell, in the last rows on the way. */
  lemma {:induction false} SingleTableKeepsLeaves(st: State, path: seq<Key>, inserted: bool)
    requires Good(st) && SingleTable(st, path, inserted).Ok?
    ensures var st' := SingleTable(st, path, inserted).state;
            Good(st') && SameLeaves(st.root, st'.root) && Names(st'.curr) == Names(st.curr) + path
    decreases |path|
  {
    if path != [] {
      EnterIsGood(st, path[0]);
      var next := Enter(st, path[0]).state;
      SingleTableKeepsLeaves(next, path[1..], inserted || path[0] !in Entries(st));
      assert path == [path[0]] + path[1..];
    }
  }

  /** An array header changes no leaf and ends in a new, empty last row that its keys spell. */
  lemma {:induction false} TableArrayKeepsLeaves(st: State, path: seq<Key>)
    requires Good(st) && path != [] && TableArray(st, path).Ok?
    ensures var st' := TableArray(st, path).state;
            && Good(st') && SameLeaves(st.root, st'.root) && Names(st'.curr) == Names(st.curr) + path
            && Entries(st') == map[]
    decreases |path|
  {
    assert path == [path[0]] + path[1..];
    if |path| == 1 {
      EnterRowIsGood(st, path[0]);
    } else {
      EnterIsGood(st, path[0]);
      TableArrayKeepsLeaves(Enter(st, path[0]).state, path[1..]);
    }
  }

  // ---------- key/value lines ----------

  /** A value as written: a scalar, a plain array, an inline table, or an array of at least one inline table. */
  datatype Literal =
    | Plain(id: nat)
    | PlainList(id: nat)
    | InlineTable(items: Items)
    | InlineTables(first: Items, others: Rows)

  datatype Items = NoItem | Item(path: seq<Key>, value: Literal, rest: Items)

  datatype Rows = NoRow | Row(items: Items, rest: Rows)

  /** parse_key_value into the table at p: dotted parts may cross or create tables only, the last key must be new. */
  function KeyValue(root: Entry, p: Place, path: seq<Key>, value: Literal): (r: Option<Entry>)
    requires IsTable(root, p)
    ensures r.Some? && root.Sub? ==> r.value.Sub?
    decreases value, 1, |path|
  {
    if path == [] then None
    else
      var t, key := TableAt(root, p), path[0];
      if |path| == 1 then
        if key in t then None
        else
          match Build(value)
          case None => None
          case Some(x) => Some(Insert(root, p, key, x))
      else if key in t then
        AtAppend(root, p, [Name(key)]);
        if t[key].Sub? then KeyValue(root, p + [Name(key)], path[1..], value) else None
      else
        InsertAt(root, p, key, Sub(map[]), p + [Name(key)]);
        KeyValue(Insert(root, p, key, Sub(map[])), p + [Name(key)], path[1..], value)
  }

  /** parse_value: inline tables are built by key/value steps into a table of their own. */
  function Build(value: Literal): (r: Option<Entry>)
    decreases value, 0
  {
    match value
    case Plain(id) => Some(Scalar(id))
    case PlainList(id) => Some(List(id))
    case InlineTable(items) => BuildTable(Sub(map[]), items)
    case InlineTables(first, others) =>
      match BuildTable(Sub(map[]), first)
      case None => None
      case Some(row) => BuildRows([row.entries], others)
  }

  function BuildTable(table: Entry, items: Items): (r: Option<Entry>)
    requires table.Sub?
    ensures r.Some? ==> r.value.Sub?
    decreases items, 0
  {
    match items
    case NoItem => Some(table)
    case Item(path, value, rest) =>
      match KeyValue(table, [], path, value)
      case None => None
      case Some(next) => BuildTable(next, rest)
  }

  function BuildRows(rows: seq<map<Key, Entry>>, others: Rows): (r: Option<Entry>)
    decreases others, 0
  {
    match others
    case NoRow => Some(Tables(rows, true))
    case Row(items, rest) =>
      match BuildTable(Sub(map[]), items)
      case None => None
      case Some(row) => BuildRows(rows + [row.entries], rest)
  }

  // ---------- what a key/value line does ----------

  function AsNames(path: seq<Key>): (p: Place) {
    if path == [] then [] else [Name(path[0])] + AsNames(path[1..])
  }

  /** The leaves of after are those of before and those of x, at place p. */
  ghost predicate LeavesPlus(before: Entry, after: Entry, p: Place, x: Entry) {
    forall q :: LeafAt(after, q) == (if p <= q then LeafAt(x, q[|p|..]) else LeafAt(before, q))
                && (p <= q ==> LeafAt(before, q) == None)
  }

  lemma PathStep(p: Place, path: seq<Key>)
    requires path != []
    ensures p + AsNames(path) == p + [Name(path[0])] + AsNames(path[1..])
  {
  }

  /** A line that is accepted puts its value's leaves at its key and touches no other leaf. */
  lemma {:induction false} KeyValueAddsLeaves(root: Entry, p: Place, path: seq<Key>, value: Literal)
    requires IsTable(root, p) && KeyValue(root, p, path, value).Some?
    ensures Build(value).Some? && LeavesPlus(root, KeyValue(root, p, path, value).value, p + AsNames(path), Build(value).value)
    decreases |path|
  {
    var t, key := TableAt(root, p), path[0];
    var after := KeyValue(root, p, path, value).value;
    PathStep(p, path);
    if |path| == 1 {
      assert p + AsNames(path) == p + [Name(key)];
      var x := Build(value).value;
      forall q
        ensures LeafAt(after, q) == if p + [Name(key)] <= q then LeafAt(x, q[|p| + 1..]) else LeafAt(root, q)
        ensures p + [Name(key)] <= q ==> LeafAt(root, q) == None
      {
        InsertLeaf(root, p, key, x, q);
      }
    } else if key in t {
      AtAppend(root, p, [Name(key)]);
      KeyValueAddsLeaves(root, p + [Name(key)], path[1..], value);
    } else {
      InsertAt(root, p, key, Sub(map[]), p + [Name(key)]);
      EmptyTableShape();
      SameLeavesInsert(root, p, key);
      var next := Insert(root, p, key, Sub(map[]));
      KeyValueAddsLeaves(next, p + [Name(key)], path[1..], value);
      assert forall q :: LeafAt(root, q) == LeafAt(next, q);
    }
  }

  lemma SameLeavesInsert(root: Entry, p: Place, key: Key)
    requires IsTable(root, p) && key !in TableAt(root, p)
    ensures SameLeaves(root, Insert(root, p, key, Sub(map[])))
  {
    EmptyTableShape();
    forall q
      ensures LeafAt(root, q) == LeafAt(Insert(root, p, key, Sub(map[])), q)
    {
      InsertLeaf(root, p, key, Sub(map[]), q);
      if p + [Name(key)] <= q {
        assert LeafAt(Sub(map[]), q[|p| + 1..]) == None;
      }
    }
  }

  /** Every place at or above p keeps its kind. */
  ghost predicate KindsKept(before: Entry, after: Entry, p: Place) {
    forall c :: c <= p ==> SameKind(At(before, c), At(after, c))
  }

  lemma InsertKeepsKinds(root: Entry, p: Place, key: Key, x: Entry)
    requires IsTable(root, p)
    ensures KindsKept(root, Insert(root, p, key, x), p)
  {
    forall c | c <= p
      ensures SameKind(At(root, c), At(Insert(root, p, key, x), c))
    {
      InsertAt(root, p, key, x, c);
    }
  }

  /** A key/value line keeps the tree well shaped and every container around its table what it was. */
  lemma {:induction false} KeyValueKeepsShape(root: Entry, p: Place, path: seq<Key>, value: Literal)
    requires IsTable(root, p) && WellShaped(root) && KeyValue(root, p, path, value).Some?
    ensures WellShaped(KeyValue(root, p, path, value).value)
    ensures KindsKept(root, KeyValue(root, p, path, value).value, p)
    decreases value, 1, |path|
  {
    var t, key := TableAt(root, p), path[0];
    if |path| == 1 {
      var x := Build(value).value;
      BuildShape(value);
      InsertShape(root, p, key, x);
      InsertKeepsKinds(root, p, key, x);
    } else if key in t {
      AtAppend(root, p, [Name(key)]);
      KeyValueKeepsShape(root, p + [Name(key)], path[1..], value);
      KindsKeptAbove(root, KeyValue(root, p, path, value).value, p, key);
    } else {
      InsertAt(root, p, key, Sub(map[]), p + [Name(key)]);
      EmptyTableShape();
      InsertShape(root, p, key, Sub(map[]));
      InsertKeepsKinds(root, p, key, Sub(map[]));
      var next := Insert(root, p, key, Sub(map[]));
      KeyValueKeepsShape(next, p + [Name(key)], path[1..], value);
      KindsKeptAbove(next, KeyValue(root, p, path, value).value, p, key);
    }
  }

  lemma KindsKeptAbove(before: Entry, after: Entry, p: Place, key: Key)
    requires KindsKept(before, after, p + [Name(key)])
    ensures KindsKept(before, after, p)
  {
    forall c | c <= p
      ensures SameKind(At(before, c), At(after, c))
    {
      assert c <= p + [Name(key)];
    }
  }

  lemma {:induction false} BuildShape(value: Literal)
    requires Build(value).Some?
    ensures WellShaped(Build(value).value)
    decreases value, 0
  {
    EmptyTableShape();
    match value
    case Plain(id) => LeafShape(Scalar(id));
    case PlainList(id) => LeafShape(List(id));
    case InlineTable(items) => BuildTableShape(Sub(map[]), items);
    case InlineTables(first, others) =>
      BuildTableShape(Sub(map[]), first);
      var row := BuildTable(Sub(map[]), first).value;
      assert forall i :: 0 <= i < 1 ==> WellShaped(Sub([row.entries][i]));
      BuildRowsShape([row.entries], others);
  }

  lemma LeafShape(e: Entry)
    requires IsLeaf(e)
    ensures WellShaped(e)
  {
    forall q: Place
      ensures RowsAt(e, q)
    {
    }
  }

  lemma {:induction false} BuildTableShape(table: Entry, items: Items)
    requires table.Sub? && WellShaped(table) && BuildTable(table, items).Some?
    ensures WellShaped(BuildTable(table, items).value)
    decreases items, 0
  {
    match items
    case NoItem =>
    case Item(path, value, rest) =>
      KeyValueKeepsShape(table, [], path, value);
      BuildTableShape(KeyValue(table, [], path, value).value, rest);
  }

  lemma {:induction false} BuildRowsShape(rows: seq<map<Key, Entry>>, others: Rows)
    requires rows != [] && (forall i :: 0 <= i < |rows| ==> WellShaped(Sub(rows[i]))) && BuildRows(rows, others).Some?
    ensures WellShaped(BuildRows(rows, others).value)
    decreases others, 0
  {
    match others
    case NoRow =>
      forall q: Place
        ensures RowsAt(Tables(rows, true), q)
      {
        if q != [] && q[0].Index? && q[0].i < |rows| {
          assert WellShaped(Sub(rows[q[0].i]));
          assert RowsAt(Sub(rows[q[0].i]), q[1..]);
        }
      }
    case Row(items, rest) =>
      EmptyTableShape();
      BuildTableShape(Sub(map[]), items);
      var row := BuildTable(Sub(map[]), items).value;
      assert forall i :: 0 <= i < |rows| + 1 ==> WellShaped(Sub((rows + [row.entries])[i]));
      BuildRowsShape(rows + [row.entries], rest);
  }

  // ---------- the leaves of a value as written ----------

  /** The text of value puts leaf v at place q below its key. */
  predicate LiteralGives(value: Literal, q: Place, v: Entry)
    decreases value
  {
    match value
    case Plain(id) => q == [] && v == Scalar(id)
    case PlainList(id) => q == [] && v == List(id)
    case InlineTable(items) => ItemsGive(items, q, v)
    case InlineTables(first, others) =>
      q != [] && q[0].Index?
      && (if q[0].i == 0 then ItemsGive(first, q[1..], v) else RowsGive(others, q[0].i - 1, q[1..], v))
  }

  predicate ItemsGive(items: Items, q: Place, v: Entry)
    decreases items
  {
    match items
    case NoItem => false
    case Item(path, value, rest) =>
      (AsNames(path) <= q && LiteralGives(value, q[|AsNames(path)|..], v)) || ItemsGive(rest, q, v)
  }

  predicate RowsGive(rows: Rows, i: nat, q: Place, v: Entry)
    decreases rows
  {
    match rows
    case NoRow => false
    case Row(items, rest) => if i == 0 then ItemsGive(items, q, v) else RowsGive(rest, i - 1, q, v)
  }

  /** A built value has exactly the leaves its text gives. */
  lemma {:induction false} BuildLeaves(value: Literal, q: Place, v: Entry)
    requires Build(value).Some?
    ensures LeafAt(Build(value).value, q) == Some(v) <==> LiteralGives(value, q, v)
    decreases value, 0
  {
    EmptyTableShape();
    match value
    case Plain(_) =>
    case PlainList(_) =>
    case InlineTable(items) =>
      BuildTableLeaves(Sub(map[]), items, q, v);
      assert LeafAt(Sub(map[]), q) == None;
    case InlineTables(first, others) =>
      var row := BuildTable(Sub(map[]), first).value;
      BuildRowsKeep([row.entries], others);
      if q != [] && q[0].Index? {
        if q[0].i == 0 {
          BuildTableLeaves(Sub(map[]), first, q[1..], v);
          assert LeafAt(Sub(map[]), q[1..]) == None;
        } else {
          BuildRowsLeaves([row.entries], others, q[0].i, q[1..], v);
          assert [Index(q[0].i)] + q[1..] == q;
        }
      }
  }

  lemma {:induction false} BuildTableLeaves(table: Entry, items: Items, q: Place, v: Entry)
    requires table.Sub? && BuildTable(table, items).Some?
    ensures LeafAt(BuildTable(table, items).value, q) == Some(v) <==> LeafAt(table, q) == Some(v) || ItemsGive(items, q, v)
    decreases items, 0
  {
    match items
    case NoItem =>
    case Item(path, value, rest) =>
      var next := KeyValue(table, [], path, value).value;
      KeyValueAddsLeaves(table, [], path, value);
      BuildTableLeaves(next, rest, q, v);
      assert [] + AsNames(path) == AsNames(path);
      assert LeafAt(next, q) ==
        if AsNames(path) <= q then LeafAt(Build(value).value, q[|AsNames(path)|..]) else LeafAt(table, q);
      if AsNames(path) <= q {
        BuildLeaves(value, q[|AsNames(path)|..], v);
      }
  }

  lemma {:induction false} BuildRowsKeep(rows: seq<map<Key, Entry>>, others: Rows)
    requires BuildRows(rows, others).Some?
    ensures BuildRows(rows, others).value.Tables? && rows <= BuildRows(rows, others).value.rows
    decreases others
  {
    match others
    case NoRow =>
    case Row(items, rest) => BuildRowsKeep(rows + [BuildTable(Sub(map[]), items).value.entries], rest);
  }

  lemma {:induction false} BuildRowsLeaves(rows: seq<map<Key, Entry>>, others: Rows, i: nat, q: Place, v: Entry)
    requires BuildRows(rows, others).Some? && i >= |rows|
    ensures LeafAt(BuildRows(rows, others).value, [Index(i)] + q) == Some(v) <==> RowsGive(others, i - |rows|, q, v)
    decreases others, 0
  {
    var p := [Index(i)] + q;
    assert p[0] == Index(i) && p[1..] == q;
    match others
    case NoRow =>
    case Row(items, rest) =>
      var row := BuildTable(Sub(map[]), items).value;
      if i == |rows| {
        BuildRowsKeep(rows + [row.entries], rest);
        assert (rows + [row.entries])[i] == row.entries;
        BuildTableLeaves(Sub(map[]), items, q, v);
        EmptyTableShape();
        assert LeafAt(Sub(map[]), q) == None;
      } else {
        BuildRowsLeaves(rows + [row.entries], rest, i, q, v);
      }
  }

  // ---------- whole documents ----------

  datatype Line =
    | TableHeader(path: seq<Key>)
    | ArrayHeader(path: seq<Key>)
    | Assignment(path: seq<Key>, value: Literal)

  function Start(): (st: State)
    ensures Good(st)
  {
    EmptyTableShape();
    State(Sub(map[]), [])
  }

  function AtRoot(st: State): (r: State)
    requires Good(st)
    ensures Good(r)
  {
    State(st.root, [])
  }

  /** One line of the document; headers start again from the root. */
  function ParseLine(st: State, line: Line): (r: Outcome)
    requires Good(st)
  {
    match line
    case TableHeader(path) => if path == [] then Rejected else SingleTable(AtRoot(st), path, false)
    case ArrayHeader(path) => if path == [] then Rejected else TableArray(AtRoot(st), path)
    case Assignment(path, value) =>
      match KeyValue(st.root, st.curr, path, value)
      case None => Rejected
      case Some(root) => Ok(State(root, st.curr))
  }

  /** What a line writes: nothing for headers, a value at a place for a key/value line. */
  function Writes(st: State, line: Line): (r: Option<(Place, Literal)>)
    requires Good(st)
  {
    match line
    case Assignment(path, value) => Some((st.curr + AsNames(path), value))
    case _ => None
  }

  /** The leaf v at place q is part of what was written as w. */
  predicate Gives(w: (Place, Literal), q: Place, v: Entry) {
    w.0 <= q && LiteralGives(w.1, q[|w.0|..], v)
  }

  lemma LineKeepsGood(st: State, line: Line)
    requires Good(st) && ParseLine(st, line).Ok?
    ensures Good(ParseLine(st, line).state)
  {
    match line
    case TableHeader(path) => SingleTableKeepsLeaves(AtRoot(st), path, false);
    case ArrayHeader(path) => TableArrayKeepsLeaves(AtRoot(st), path);
    case Assignment(path, value) =>
      KeyValueKeepsShape(st.root, st.curr, path, value);
      var root := KeyValue(st.root, st.curr, path, value).value;
      assert SameKind(At(st.root, st.curr), At(root, st.curr));
      assert st.curr + [] == st.curr;
      LastRowsKept(st.root, root, st.curr, []);
  }

  lemma LineLeaves(st: State, line: Line, q: Place, v: Entry)
    requires Good(st) && ParseLine(st, line).Ok?
    ensures LeafAt(ParseLine(st, line).state.root, q) == Some(v)
            <==> LeafAt(st.root, q) == Some(v)
                 || (Writes(st, line).Some? && Gives(Writes(st, line).value, q, v))
    ensures LeafAt(st.root, q) == Some(v) && Writes(st, line).Some? ==> !(Writes(st, line).value.0 <= q)
  {
    match line
    case TableHeader(path) =>
      SingleTableKeepsLeaves(AtRoot(st), path, false);
      assert LeafAt(st.root, q) == LeafAt(ParseLine(st, line).state.root, q);
    case ArrayHeader(path) =>
      TableArrayKeepsLeaves(AtRoot(st), path);
      assert LeafAt(st.root, q) == LeafAt(ParseLine(st, line).state.root, q);
    case Assignment(path, value) =>
      KeyValueAddsLeaves(st.root, st.curr, path, value);
      assert LeafAt(KeyValue(st.root, st.curr, path, value).value, q)
          == if st.curr + AsNames(path) <= q then LeafAt(Build(value).value, q[|st.curr + AsNames(path)|..])
             else LeafAt(st.root, q);
      if st.curr + AsNames(path) <= q {
        BuildLeaves(value, q[|st.curr + AsNames(path)|..], v);
      }
  }

  function Run(st: State, lines: seq<Line>): (r: Outcome)
    requires Good(st)
    ensures r.Ok? ==> Good(r.state)
    decreases |lines|
  {
    if lines == [] then Ok(st)
    else
      match ParseLine(st, lines[0])
      case Rejected => Rejected
      case Ok(next) => LineKeepsGood(st, lines[0]); Run(next, lines[1..])
  }

  /** Everything the accepted lines wrote, in order. */
  function Written(st: State, lines: seq<Line>): (ws: seq<(Place, Literal)>)
    requires Good(st) && Run(st, lines).Ok?
    decreases |lines|
  {
    if lines == [] then []
    else
      LineKeepsGood(st, lines[0]);
      var rest := Written(ParseLine(st, lines[0]).state, lines[1..]);
      match Writes(st, lines[0])
      case Some(w) => [w] + rest
      case None => rest
  }

  /** A leaf is in the parsed tree exactly when it was there before or some line wrote it there:
      nothing is overwritten, removed or invented along the run. */
  lemma {:induction false} RunLeaves(st: State, lines: seq<Line>, q: Place, v: Entry)
    requires Good(st) && Run(st, lines).Ok?
    ensures LeafAt(Run(st, lines).state.root, q) == Some(v)
            <==> LeafAt(st.root, q) == Some(v) || exists w :: w in Written(st, lines) && Gives(w, q, v)
    decreases |lines|
  {
    if lines != [] {
      LineKeepsGood(st, lines[0]);
      LineLeaves(st, lines[0], q, v);
      var next := ParseLine(st, lines[0]).state;
      RunLeaves(next, lines[1..], q, v);
      var rest := Written(next, lines[1..]);
      var w := Writes(st, lines[0]);
      if w.Some? {
        assert Written(st, lines) == [w.value] + rest;
        assert forall x :: x in [w.value] + rest <==> x == w.value || x in rest;
      }
    }
  }

  /** The document's leaves are what its key/value lines wrote. */
  lemma DocumentLeaves(lines: seq<Line>, q: Place, v: Entry)
    requires Run(Start(), lines).Ok?
    ensures LeafAt(Run(Start(), lines).state.root, q) == Some(v)
            <==> exists w :: w in Written(Start(), lines) && Gives(w, q, v)
  {
    RunLeaves(Start(), lines, q, v);
    EmptyTableShape();
    assert LeafAt(Start().root, q) == None;
  }

  /** Once defined, a leaf stays through every accepted continuation. */
  lemma LeavesSurvive(st: State, lines: seq<Line>, q: Place)
    requires Good(st) && Run(st, lines).Ok? && LeafAt(st.root, q).Some?
    ensures LeafAt(Run(st, lines).state.root, q) == LeafAt(st.root, q)
  {
    RunLeaves(st, lines, q, LeafAt(st.root, q).value);
  }

  // ---------- the parser ----------

  method ParseKeyValue(root0: Entry, p0: Place, path: seq<Key>, value: Literal) returns (r: Option<Entry>)
    requires IsTable(root0, p0)
    ensures r == KeyValue(root0, p0, path, value)
    decreases value, 2
  {
    if path == [] {
      return None;
    }
    var root, p, i := root0, p0, 0;
    assert path[0..] == path;
    while i < |path| - 1
      invariant 0 <= i <= |path| - 1 && IsTable(root, p)
      invariant KeyValue(root0, p0, path, value) == KeyValue(root, p, path[i..], value)
    {
      var t, part := TableAt(root, p), path[i];
      assert path[i..][1..] == path[i + 1..] && path[i..][0] == part;
      if part in t {
        if !t[part].Sub? {
          return None;
        }
        AtAppend(root, p, [Name(part)]);
      } else {
        InsertAt(root, p, part, Sub(map[]), p + [Name(part)]);
        root := Insert(root, p, part, Sub(map[]));
      }
      p, i := p + [Name(part)], i + 1;
    }
    var key := path[i];
    assert path[i..] == [key];
    if key in TableAt(root, p) {
      return None;
    }
    var x := ParseValue(value);
    if x.None? {
      return None;
    }
    r := Some(Insert(root, p, key, x.value));
  }

  method ParseValue(value: Literal) returns (r: Option<Entry>)
    ensures r == Build(value)
    decreases value, 1
  {
    match value
    case Plain(id) => r := Some(Scalar(id));
    case PlainList(id) => r := Some(List(id));
    case InlineTable(items) => r := ParseInlineTable(items);
    case InlineTables(first, others) => r := ParseObjectArray(first, others);
  }

  method ParseInlineTable(items: Items) returns (r: Option<Entry>)
    ensures r == BuildTable(Sub(map[]), items)
    decreases items
  {
    var table, left := Sub(map[]), items;
    while left.Item?
      invariant table.Sub? && BuildTable(table, left) == BuildTable(Sub(map[]), items)
      invariant left == items || left < items
      decreases left
    {
      var next := ParseKeyValue(table, [], left.path, left.value);
      if next.None? {
        return None;
      }
      table, left := next.value, left.rest;
    }
    r := Some(table);
  }

  /** parse_object_array on inline tables: the first is known to be there, so the array is never empty. */
  method ParseObjectArray(first: Items, others: Rows) returns (r: Option<Entry>)
    ensures r == match BuildTable(Sub(map[]), first)
                 case None => None
                 case Some(row) => BuildRows([row.entries], others)
    ensures r.Some? ==> r.value.Tables? && r.value.rows != []
    decreases InlineTables(first, others), 0
  {
    var row := ParseInlineTable(first);
    if row.None? {
      return None;
    }
    BuildFirst(first);
    var rows, left := [row.value.entries], others;
    while left.Row?
      invariant rows != [] && BuildRows(rows, left) == BuildRows([row.value.entries], others)
      invariant left == others || left < others
      decreases left
    {
      var next := ParseInlineTable(left.items);
      if next.None? {
        return None;
      }
      rows, left := rows + [next.value.entries], left.rest;
    }
    r := Some(Tables(rows, true));
  }

  lemma BuildFirst(first: Items)
    ensures BuildTable(Sub(map[]), first).Some? ==> BuildTable(Sub(map[]), first).value.Sub?
  {
  }

  class Parser {
    var root: Entry
    var curr: Place

    ghost function Now(): (st: State)
      reads this
    {
      State(root, curr)
    }

    ghost predicate Valid()
      reads this
    {
      Good(Now())
    }

    constructor ()
      ensures Valid() && Now() == Start()
    {
      root, curr := Start().root, Start().curr;
    }

    /** One part of a header's key; tells whether it created a table. */
    method EnterPart(part: Key) returns (ok: bool, inserted: bool)
      requires Valid()
      modifies this
      ensures ok == (part != "" && Enter(old(Now()), part).Ok?)
      ensures ok ==> Valid() && Now() == Enter(old(Now()), part).state
      ensures ok ==> inserted == (part !in old(Entries(Now())))
    {
      if part == "" {
        return false, false;
      }
      var t := TableAt(root, curr);
      ok, inserted := true, false;
      if Enter(Now(), part).Ok? {
        EnterIsGood(Now(), part);
      }
      if part in t {
        if t[part].Sub? {
          curr := curr + [Name(part)];
        } else if t[part].Tables? {
          BackExists(Now(), part);
          curr := Back(curr, part, t[part].rows);
        } else {
          ok := false;
        }
      } else {
        inserted := true;
        root := Insert(root, curr, part, Sub(map[]));
        curr := curr + [Name(part)];
      }
    }

    method ParseSingleTable(path: seq<Key>) returns (ok: bool)
      requires Valid()
      modifies this
      ensures ok == ParseLine(old(Now()), TableHeader(path)).Ok?
      ensures ok ==> Valid() && Now() == ParseLine(old(Now()), TableHeader(path)).state
    {
      curr := [];
      if path == [] {
        return false;
      }
      var inserted, i := false, 0;
      ghost var goal := SingleTable(AtRoot(old(Now())), path, false);
      assert path[0..] == path;
      while i < |path|
        invariant 0 <= i <= |path| && Valid() && goal == SingleTable(Now(), path[i..], inserted)
      {
        assert path[i..][1..] == path[i + 1..] && path[i..][0] == path[i];
        var good, created := EnterPart(path[i]);
        if !good {
          return false;
        }
        inserted, i := inserted || created, i + 1;
      }
      ok := inserted || !Redefined(TableAt(root, curr));
    }

    method ParseTableArray(path: seq<Key>) returns (ok: bool)
      requires Valid()
      modifies this
      ensures ok == ParseLine(old(Now()), ArrayHeader(path)).Ok?
      ensures ok ==> Valid() && Now() == ParseLine(old(Now()), ArrayHeader(path)).state
    {
      curr := [];
      if path == [] {
        return false;
      }
      var i := 0;
      ghost var goal := TableArray(AtRoot(old(Now())), path);
      assert path[0..] == path;
      while i < |path| - 1
        invariant 0 <= i <= |path| - 1 && Valid() && goal == TableArray(Now(), path[i..])
      {
        assert path[i..][1..] == path[i + 1..] && path[i..][0] == path[i];
        var good, created := EnterPart(path[i]);
        if !good {
          return false;
        }
        i := i + 1;
      }
      assert path[i..] == [path[i]];
      ok := AppendRow(path[i]);
    }

    method AppendRow(part: Key) returns (ok: bool)
      requires Valid()
      modifies this
      ensures ok == (part != "" && EnterRow(old(Now()), part).Ok?)
      ensures ok ==> Valid() && Now() == EnterRow(old(Now()), part).state
    {
      if part == "" {
        return false;
      }
      if EnterRow(Now(), part).Ok? {
        EnterRowIsGood(Now(), part);
      }
      var t := TableAt(root, curr);
      if part in t {
        if !t[part].Tables? || t[part].isInline {
          return false;
        }
        root := AddRow(root, curr, part);
        curr := Back(curr, part, t[part].rows + [map[]]);
      } else {
        root := Insert(root, curr, part, Tables([map[]], false));
        curr := Back(curr, part, [map[]]);
      }
      ok := true;
    }

    /** parse: line by line until one is rejected. */
    method Parse(lines: seq<Line>) returns (ok: bool)
      requires Valid()
      modifies this
      ensures ok == Run(old(Now()), lines).Ok?
      ensures ok ==> Valid() && Now() == Run(old(Now()), lines).state
    {
      var i := 0;
      ghost var goal := Run(Now(), lines);
      assert lines[0..] == lines;
      while i < |lines|
        invariant 0 <= i <= |lines| && Valid() && goal == Run(Now(), lines[i..])
      {
        assert lines[i..][1..] == lines[i + 1..] && lines[i..][0] == lines[i];
        ghost var before := Now();
        match lines[i] {
          case TableHeader(path) => ok := ParseSingleTable(path);
          case ArrayHeader(path) => ok := ParseTableArray(path);
          case Assignment(path, value) =>
            var next := ParseKeyValue(root, curr, path, value);
            ok := next.Some?;
            if ok {
              root := next.value;
            }
        }
        assert ok == ParseLine(before, lines[i]).Ok?;
        if !ok {
          return false;
        }
        LineKeepsGood(before, lines[i]);
        i := i + 1;
      }
      ok := true;
    }
  }
}
