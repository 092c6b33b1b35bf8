/** Which lines cpptoml's parser accepts and what they do to the tree, said of the places of the
    tree alone. Keys lead through tables by name and through table arrays by their last row. */
module TomlAcceptance {
  import opened TomlTables

  // ---------- places reached by keys ----------

  /** A place that exists, in the last row of every table array on the way. */
  ghost predicate Reached(e: Entry, q: Place) {
    InLastRows(e, q) && At(e, q).Some?
  }

  /** The table that keys go on in: the last row of a table array, anything else itself. */
  function Inner(e: Entry): (r: Entry) {
    if e.Tables? && e.rows != [] then Sub(e.rows[|e.rows| - 1]) else e
  }

  lemma ByName(t: map<Key, Entry>, k: Key, q: Place)
    requires k in t
    ensures At(Sub(t), [Name(k)] + q) == At(t[k], q) && Names([Name(k)] + q) == [k] + Names(q)
    ensures InLastRows(Sub(t), [Name(k)] + q) <==> InLastRows(t[k], q)
  {
    var p := [Name(k)] + q;
    assert p[1..] == q;
    StepIn(Sub(t), t[k], Name(k), q);
    assert LastRowAt(Sub(t), p, 0);
  }

  lemma ByRow(rows: seq<map<Key, Entry>>, isInline: bool, i: nat, q: Place)
    requires i < |rows|
    ensures At(Tables(rows, isInline), [Index(i)] + q) == At(Sub(rows[i]), q) && Names([Index(i)] + q) == Names(q)
    ensures InLastRows(Tables(rows, isInline), [Index(i)] + q) <==> i == |rows| - 1 && InLastRows(Sub(rows[i]), q)
  {
    var e, p := Tables(rows, isInline), [Index(i)] + q;
    assert p[1..] == q;
    StepIn(e, Sub(rows[i]), Index(i), q);
    assert p[..0] == [];
    assert LastRowAt(e, p, 0) <==> i == |rows| - 1;
  }

  /** One step down, the remaining steps pick last rows as before. */
  lemma StepIn(e: Entry, e': Entry, step: Step, q: Place)
    requires forall r: Place :: At(e, [step] + r) == At(e', r)
    ensures InLastRows(e, [step] + q) <==> LastRowAt(e, [step] + q, 0) && InLastRows(e', q)
  {
    var p := [step] + q;
    forall i: nat | i < |q|
      ensures LastRowAt(e, p, i + 1) <==> LastRowAt(e', q, i)
    {
      assert p[..i + 1] == [step] + q[..i] && p[i + 1] == q[i];
    }
    if InLastRows(e, p) {
      forall i: nat | i < |q|
        ensures LastRowAt(e', q, i)
      {
        assert LastRowAt(e, p, i + 1);
      }
    }
    if LastRowAt(e, p, 0) && InLastRows(e', q) {
      forall i: nat | i < |p|
        ensures LastRowAt(e, p, i)
      {
        if i > 0 {
          assert LastRowAt(e', q, i - 1);
        }
      }
    }
  }

  /** The steps from a table into what stands under k. */
  function Down(x: Entry, k: Key): (p: Place) {
    if x.Tables? && x.rows != [] then [Name(k), Index(|x.rows| - 1)] else [Name(k)]
  }

  lemma DownInner(t: map<Key, Entry>, k: Key, q: Place)
    requires k in t
    ensures At(Sub(t), Down(t[k], k) + q) == At(Inner(t[k]), q) && Names(Down(t[k], k) + q) == [k] + Names(q)
    ensures InLastRows(Sub(t), Down(t[k], k) + q) <==> InLastRows(Inner(t[k]), q)
  {
    var x := t[k];
    if x.Tables? && x.rows != [] {
      var i := |x.rows| - 1;
      assert Down(x, k) + q == [Name(k)] + ([Index(i)] + q);
      ByName(t, k, [Index(i)] + q);
      ByRow(x.rows, x.isInline, i, q);
    } else {
      ByName(t, k, q);
    }
  }

  /** A place reached from a table is the table, an array under a key, or inside what a key leads to. */
  lemma FirstSteps(t: map<Key, Entry>, q: Place)
    requires Reached(Sub(t), q) && q != []
    ensures q[0].Name? && q[0].key in t
    ensures var k := q[0].key; var x := t[k];
            || (x.Tables? && q == [Name(k)])
            || (q == Down(x, k) + q[|Down(x, k)|..] && Reached(Inner(x), q[|Down(x, k)|..]))
  {
    var k := q[0].key;
    var x, rest := t[k], q[1..];
    assert q == [Name(k)] + rest;
    ByName(t, k, rest);
    if x.Tables? && rest != [] {
      assert rest == [rest[0]] + rest[1..];
      ByRow(x.rows, x.isInline, rest[0].i, rest[1..]);
      assert q[2..] == rest[1..];
    }
  }

  lemma NoNames(t: map<Key, Entry>, q: Place)
    requires Reached(Sub(t), q) && Names(q) == []
    ensures q == []
  {
    if q != [] {
      FirstSteps(t, q);
    }
  }

  // ---------- table headers ----------

  /** The keys run into a leaf at q. */
  ghost predicate Blocks(e: Entry, q: Place, path: seq<Key>) {
    Reached(e, q) && IsLeaf(At(e, q).value) && Names(q) <= path
  }

  /** The keys lead to a table at q that counts as defined: it has no entry, or a scalar one. */
  ghost predicate Defined(e: Entry, q: Place, path: seq<Key>) {
    && Reached(e, q) && IsTable(e, q) && Names(q) == path
    && (TableAt(e, q) == map[] || exists k :: k in TableAt(e, q) && TableAt(e, q)[k].Scalar?)
  }

  ghost predicate Unblocked(e: Entry, path: seq<Key>) {
    forall q :: !Blocks(e, q, path)
  }

  ghost predicate Undefined(e: Entry, path: seq<Key>) {
    forall q :: !Defined(e, q, path)
  }

  predicate NoEmptyKey(path: seq<Key>) {
    forall i :: 0 <= i < |path| ==> path[i] != ""
  }

  /** Exactly the table headers the parser accepts. */
  ghost predicate TableHeaderFits(root: Entry, path: seq<Key>) {
    path != [] && NoEmptyKey(path) && Unblocked(root, path) && Undefined(root, path)
  }

  lemma UnblockedStep(t: map<Key, Entry>, path: seq<Key>)
    requires path != []
    ensures Unblocked(Sub(t), path)
            <==> path[0] !in t || (!IsLeaf(t[path[0]]) && Unblocked(Inner(t[path[0]]), path[1..]))
  {
    var k, rest := path[0], path[1..];
    assert path == [k] + rest;
    if k in t {
      var x := t[k];
      if Unblocked(Sub(t), path) {
        forall q
          ensures !Blocks(Inner(x), q, rest)
        {
          DownInner(t, k, q);
          assert !Blocks(Sub(t), Down(x, k) + q, path);
          PrefixCons(k, Names(q), rest);
        }
        DownInner(t, k, []);
        assert !Blocks(Sub(t), Down(x, k) + [], path);
      }
    }
    forall q: Place | Blocks(Sub(t), q, path)
      ensures k in t && (IsLeaf(t[k]) || exists r :: Blocks(Inner(t[k]), r, rest))
    {
      FirstSteps(t, q);
      var k' := q[0].key;
      var x := t[k'];
      if q == [Name(k')] {
        ByName(t, k', []);
        assert q == [Name(k')] + [];
      } else {
        var r := q[|Down(x, k')|..];
        DownInner(t, k', r);
        PrefixCons(k', Names(r), rest);
        assert k' == k;
        assert Blocks(Inner(x), r, rest);
      }
    }
  }

  lemma PrefixCons<T>(k: T, a: seq<T>, b: seq<T>)
    ensures [k] + a <= [k] + b <==> a <= b
  {
    assert ([k] + a)[1..] == a && ([k] + b)[1..] == b;
    if [k] + a <= [k] + b {
      assert ([k] + b)[..|a| + 1] == [k] + b[..|a|];
    }
  }

  lemma UndefinedStep(t: map<Key, Entry>, path: seq<Key>)
    requires path != []
    ensures Undefined(Sub(t), path) <==> path[0] !in t || Undefined(Inner(t[path[0]]), path[1..])
  {
    var k, rest := path[0], path[1..];
    assert path == [k] + rest;
    if k in t && Undefined(Sub(t), path) {
      forall q
        ensures !Defined(Inner(t[k]), q, rest)
      {
        DownInner(t, k, q);
        assert !Defined(Sub(t), Down(t[k], k) + q, path);
      }
    }
    forall q: Place | Defined(Sub(t), q, path)
      ensures k in t && exists r :: Defined(Inner(t[k]), r, rest)
    {
      FirstSteps(t, q);
      var k' := q[0].key;
      ByName(t, k', []);
      assert [Name(k')] + [] == [Name(k')];
      var r := q[|Down(t[k'], k')|..];
      DownInner(t, k', r);
      assert ([k'] + Names(r))[0] == k' && ([k'] + Names(r))[1..] == Names(r);
      assert Defined(Inner(t[k]), r, rest);
    }
  }

  /** Where a header goes next. */
  lemma EnterGoes(st: State, part: Key)
    requires Good(st)
    ensures Enter(st, part).Ok? <==> part !in Entries(st) || !IsLeaf(Entries(st)[part])
    ensures Enter(st, part).Ok? ==>
              && Good(Enter(st, part).state)
              && Sub(Entries(Enter(st, part).state)) == if part in Entries(st) then Inner(Entries(st)[part]) else Sub(map[])
  {
    var t := Entries(st);
    if Enter(st, part).Ok? {
      EnterIsGood(st, part);
      AtAppend(st.root, st.curr, [Name(part)]);
      if part !in t {
        InsertAt(st.root, st.curr, part, Sub(map[]), st.curr + [Name(part)]);
      } else if t[part].Tables? {
        BackExists(st, part);
        var i := |t[part].rows| - 1;
        AtAppend(st.root, st.curr + [Name(part)], [Index(i)]);
        assert st.curr + [Name(part)] + [Index(i)] == Back(st.curr, part, t[part].rows);
      }
    }
  }

  lemma EmptyTableFits(path: seq<Key>)
    ensures Unblocked(Sub(map[]), path)
  {
    forall q
      ensures !Blocks(Sub(map[]), q, path)
    {
      if Reached(Sub(map[]), q) && q != [] {
        FirstSteps(map[], q);
      }
    }
  }

  lemma {:induction false} SingleTableIff(st: State, path: seq<Key>, inserted: bool)
    requires Good(st)
    ensures SingleTable(st, path, inserted).Ok?
            <==> NoEmptyKey(path) && Unblocked(Sub(Entries(st)), path) && (inserted || Undefined(Sub(Entries(st)), path))
    decreases |path|
  {
    var t := Entries(st);
    if path == [] {
      AtEnd(t);
    } else {
      var k, rest := path[0], path[1..];
      assert NoEmptyKey(path) <==> k != "" && NoEmptyKey(rest) by { NoEmptyKeyStep(path); }
      UnblockedStep(t, path);
      UndefinedStep(t, path);
      EnterGoes(st, k);
      if k != "" && Enter(st, k).Ok? {
        SingleTableIff(Enter(st, k).state, rest, inserted || k !in t);
        EmptyTableFits(rest);
      }
    }
  }

  lemma NoEmptyKeyStep(path: seq<Key>)
    requires path != []
    ensures NoEmptyKey(path) <==> path[0] != "" && NoEmptyKey(path[1..])
  {
    if path[0] != "" && NoEmptyKey(path[1..]) {
      forall i | 0 <= i < |path|
        ensures path[i] != ""
      {
        if i > 0 {
          assert path[i] == path[1..][i - 1];
        }
      }
    }
  }

  lemma AtEnd(t: map<Key, Entry>)
    ensures Unblocked(Sub(t), [])
    ensures Undefined(Sub(t), []) <==> !(t == map[] || exists k :: k in t && t[k].Scalar?)
  {
    forall q | Reached(Sub(t), q) && Names(q) <= []
      ensures q == []
    {
      NoNames(t, q);
    }
    assert InLastRows(Sub(t), []);
    if Undefined(Sub(t), []) {
      assert !Defined(Sub(t), [], []);
    }
  }

  /** A table header is accepted exactly when no part is empty, its keys run into no leaf, and they
      do not lead to a table that counts as defined. */
  lemma TableHeaderIff(st: State, path: seq<Key>)
    requires Good(st)
    ensures ParseLine(st, TableHeader(path)).Ok? <==> TableHeaderFits(st.root, path)
  {
    if path != [] {
      SingleTableIff(AtRoot(st), path, false);
    }
  }

  // ---------- array headers ----------

  /** The last key of path names something at q that takes no further row. */
  ghost predicate Taken(e: Entry, q: Place, path: seq<Key>) {
    && Reached(e, q) && Names(q) == path && q != [] && q[|q| - 1].Name?
    && !(At(e, q).value.Tables? && !At(e, q).value.isInline)
  }

  ghost predicate NotTaken(e: Entry, path: seq<Key>) {
    forall q :: !Taken(e, q, path)
  }

  /** Exactly the array headers the parser accepts. */
  ghost predicate ArrayHeaderFits(root: Entry, path: seq<Key>) {
    path != [] && NoEmptyKey(path) && Unblocked(root, path[..|path| - 1]) && NotTaken(root, path)
  }

  lemma NotTakenStep(t: map<Key, Entry>, path: seq<Key>)
    requires |path| >= 2
    ensures NotTaken(Sub(t), path) <==> path[0] !in t || NotTaken(Inner(t[path[0]]), path[1..])
  {
    var k, rest := path[0], path[1..];
    assert path == [k] + rest;
    if k in t && NotTaken(Sub(t), path) {
      forall q
        ensures !Taken(Inner(t[k]), q, rest)
      {
        DownInner(t, k, q);
        assert !Taken(Sub(t), Down(t[k], k) + q, path);
      }
    }
    forall q: Place | Taken(Sub(t), q, path)
      ensures k in t && exists r :: Taken(Inner(t[k]), r, rest)
    {
      FirstSteps(t, q);
      var k' := q[0].key;
      ByName(t, k', []);
      assert [Name(k')] + [] == [Name(k')];
      var r := q[|Down(t[k'], k')|..];
      DownInner(t, k', r);
      assert ([k'] + Names(r))[0] == k' && ([k'] + Names(r))[1..] == Names(r);
      assert Taken(Inner(t[k]), r, rest);
    }
  }

  lemma NotTakenEnd(t: map<Key, Entry>, k: Key)
    ensures NotTaken(Sub(t), [k]) <==> k !in t || (t[k].Tables? && !t[k].isInline)
  {
    if k in t {
      ByName(t, k, []);
      assert [Name(k)] + [] == [Name(k)] && InLastRows(t[k], []);
      assert Taken(Sub(t), [Name(k)], [k]) <==> !(t[k].Tables? && !t[k].isInline);
    }
    forall q: Place | Taken(Sub(t), q, [k])
      ensures q == [Name(k)] && k in t
    {
      FirstSteps(t, q);
      var k' := q[0].key;
      ByName(t, k', []);
      assert [Name(k')] + [] == [Name(k')] && ([k'] + Names([]))[0] == k';
      if q != [Name(k')] {
        var r := q[|Down(t[k'], k')|..];
        DownInner(t, k', r);
        assert ([k'] + Names(r))[0] == k' && ([k'] + Names(r))[1..] == Names(r);
        InsideNoNames(Inner(t[k']), r);
      }
    }
  }

  lemma InsideNoNames(e: Entry, r: Place)
    requires Reached(e, r) && Names(r) == [] && (e.Tables? ==> e.rows == [])
    ensures r == []
  {
    if e.Sub? {
      NoNames(e.entries, r);
    }
  }

  lemma {:induction false} TableArrayIff(st: State, path: seq<Key>)
    requires Good(st) && path != []
    ensures TableArray(st, path).Ok?
            <==> NoEmptyKey(path) && Unblocked(Sub(Entries(st)), path[..|path| - 1]) && NotTaken(Sub(Entries(st)), path)
    decreases |path|
  {
    var t, k, rest := Entries(st), path[0], path[1..];
    NoEmptyKeyStep(path);
    if |path| == 1 {
      assert path == [k] && path[..0] == [] && rest == [];
      NotTakenEnd(t, k);
      AtEnd(t);
    } else {
      var front := path[..|path| - 1];
      assert front[0] == k && front[1..] == rest[..|rest| - 1];
      UnblockedStep(t, front);
      NotTakenStep(t, path);
      EnterGoes(st, k);
      if k != "" && Enter(st, k).Ok? {
        TableArrayIff(Enter(st, k).state, rest);
        EmptyTableFits(rest[..|rest| - 1]);
        EmptyNotTaken(rest);
      }
    }
  }

  lemma EmptyNotTaken(path: seq<Key>)
    ensures NotTaken(Sub(map[]), path)
  {
    forall q
      ensures !Taken(Sub(map[]), q, path)
    {
      if Reached(Sub(map[]), q) && q != [] {
        FirstSteps(map[], q);
      }
    }
  }

  /** An array header is accepted exactly when no part is empty, its keys but the last run into no
      leaf, and the last key is free or names a table array that was not written inline. */
  lemma ArrayHeaderIff(st: State, path: seq<Key>)
    requires Good(st)
    ensures ParseLine(st, ArrayHeader(path)).Ok? <==> ArrayHeaderFits(st.root, path)
  {
    if path != [] {
      TableArrayIff(AtRoot(st), path);
    }
  }

  // ---------- what a header adds ----------

  /** Nothing goes, and what is new are the tables on the way to c. */
  ghost predicate GrownTo(before: Entry, after: Entry, c: Place) {
    forall q :: GrownAt(before, after, c, q)
  }

  predicate GrownAt(before: Entry, after: Entry, c: Place, q: Place) {
    if At(before, q).Some? then SameKind(At(before, q), At(after, q))
    else if q <= c then IsTable(after, q)
    else At(after, q) == None
  }

  lemma AboveExists(e: Entry, c: Place, q: Place)
    requires At(e, c).Some? && q <= c
    ensures At(e, q).Some?
  {
    assert c == q + c[|q|..];
    AtAppend(e, q, c[|q|..]);
  }

  lemma SameTreeGrown(e: Entry, c: Place)
    requires At(e, c).Some?
    ensures GrownTo(e, e, c)
  {
    forall q
      ensures GrownAt(e, e, c, q)
    {
      if q <= c {
        AboveExists(e, c, q);
      }
    }
  }

  lemma GrownTwice(a: Entry, b: Entry, c: Entry, p: Place, q: Place)
    requires GrownTo(a, b, p) && GrownTo(b, c, q) && p <= q
    ensures GrownTo(a, c, q)
  {
    forall r
      ensures GrownAt(a, c, q, r)
    {
      assert GrownAt(a, b, p, r) && GrownAt(b, c, q, r);
    }
  }

  lemma EnterGrows(st: State, part: Key)
    requires Good(st) && Enter(st, part).Ok?
    ensures var st' := Enter(st, part).state; GrownTo(st.root, st'.root, st'.curr) && st.curr <= st'.curr
  {
    var p, st' := st.curr, Enter(st, part).state;
    if part in Entries(st) {
      EnterIsGood(st, part);
      SameTreeGrown(st.root, st'.curr);
    } else {
      var c := p + [Name(part)];
      forall q
        ensures GrownAt(st.root, st'.root, c, q)
      {
        InsertAt(st.root, p, part, Sub(map[]), q);
        if c <= q {
          AbsentBelow(st.root, p, part, q);
          assert q == c + q[|c|..];
        } else if q <= c {
          assert q <= p;
          AboveExists(st.root, p, q);
        }
      }
    }
  }

  /** An accepted table header adds the tables its keys spell where they are missing, and nothing else. */
  lemma {:induction false} SingleTableGrows(st: State, path: seq<Key>, inserted: bool)
    requires Good(st) && SingleTable(st, path, inserted).Ok?
    ensures var st' := SingleTable(st, path, inserted).state;
            GrownTo(st.root, st'.root, st'.curr) && st.curr <= st'.curr
    decreases |path|
  {
    if path == [] {
      SameTreeGrown(st.root, st.curr);
    } else {
      EnterIsGood(st, path[0]);
      EnterGrows(st, path[0]);
      var next := Enter(st, path[0]).state;
      SingleTableGrows(next, path[1..], inserted || path[0] !in Entries(st));
      var last := SingleTable(st, path, inserted).state;
      GrownTwice(st.root, next.root, last.root, next.curr, last.curr);
    }
  }

  /** One row, the last and an empty one, is new in the table array around c; the array itself is new
      when that row is its first. Above it missing tables are new. */
  ghost predicate RowOpened(before: Entry, after: Entry, c: Place) {
    && c != [] && c[|c| - 1].Index? && IsTable(after, c) && TableAt(after, c) == map[]
    && forall q :: RowOpenedAt(before, after, c, q)
  }

  predicate RowOpenedAt(before: Entry, after: Entry, c: Place, q: Place)
    requires c != [] && c[|c| - 1].Index?
  {
    var n := c[|c| - 1].i;
    if q == c[..|c| - 1] then
      && At(after, q).Some? && At(after, q).value.Tables? && |At(after, q).value.rows| == n + 1
      && !At(after, q).value.isInline
      && if At(before, q).Some? then At(before, q).value.Tables? && |At(before, q).value.rows| == n else n == 0
    else GrownAt(before, after, c, q)
  }

  lemma EnterRowOpens(st: State, part: Key)
    requires Good(st) && EnterRow(st, part).Ok?
    ensures var st' := EnterRow(st, part).state; RowOpened(st.root, st'.root, st'.curr) && st.curr <= st'.curr
  {
    var p, st', t := st.curr, EnterRow(st, part).state, Entries(st);
    EnterRowIsGood(st, part);
    RowIsInserted(st, part);
    AtAppend(st.root, p, [Name(part)]);
    var rows := if part in t then t[part].rows else [];
    var x := Tables(rows + [map[]], if part in t then t[part].isInline else false);
    var a, c := p + [Name(part)], st'.curr;
    assert c == a + [Index(|rows|)] && c[..|c| - 1] == a;
    assert part !in t ==> rows + [map[]] == [map[]];
    assert st'.root == Insert(st.root, p, part, x);
    hide EnterRow, Good, Insert;
    forall q
      ensures RowOpenedAt(st.root, st'.root, c, q)
    {
      InsertAt(st.root, p, part, x, q);
      if a <= q {
        InsideRow(st.root, st'.root, a, rows, x.isInline, q);
      } else if q <= c {
        assert q <= p;
        AboveExists(st.root, p, q);
      }
    }
  }

  lemma InsideRow(before: Entry, after: Entry, a: Place, rows: seq<map<Key, Entry>>, isInline: bool, q: Place)
    requires a <= q && At(after, q) == At(Tables(rows + [map[]], isInline), q[|a|..]) && !isInline
    requires At(before, a) == Some(Tables(rows, isInline)) || (At(before, a) == None && rows == [])
    ensures RowOpenedAt(before, after, a + [Index(|rows|)], q)
  {
    var c, r := a + [Index(|rows|)], q[|a|..];
    assert q == a + r && c[..|c| - 1] == a;
    AtAppend(before, a, r);
    OneMoreRow(rows, isInline, r);
    assert r == [Index(|rows|)] ==> q == c;
    if r == [] {
      assert q == a;
    } else if q <= c {
      assert |q| == |c| && q == c;
      assert r == [Index(|rows|)];
    }
  }

  lemma OneMoreRow(rows: seq<map<Key, Entry>>, isInline: bool, r: Place)
    ensures r != [] ==> At(Tables(rows + [map[]], isInline), r)
                        == if r == [Index(|rows|)] then Some(Sub(map[])) else At(Tables(rows, isInline), r)
  {
    if r != [] && r[0].Index? && r[0].i == |rows| && r[1..] != [] {
      assert r != [Index(|rows|)];
      assert At(Sub(map[]), r[1..]) == None;
    }
    if r != [] && r[0] == Index(|rows|) && r[1..] == [] {
      assert r == [r[0]] + r[1..];
    }
  }

  lemma GrownThenOpened(a: Entry, b: Entry, c: Entry, p: Place, q: Place)
    requires GrownTo(a, b, p) && RowOpened(b, c, q) && p <= q
    ensures RowOpened(a, c, q)
  {
    forall r
      ensures RowOpenedAt(a, c, q, r)
    {
      assert GrownAt(a, b, p, r) && RowOpenedAt(b, c, q, r);
    }
  }

  /** An accepted array header opens one empty last row, and adds the tables its keys spell before it. */
  lemma {:induction false} TableArrayOpens(st: State, path: seq<Key>)
    requires Good(st) && path != [] && TableArray(st, path).Ok?
    ensures var st' := TableArray(st, path).state; RowOpened(st.root, st'.root, st'.curr) && st.curr <= st'.curr
    decreases |path|
  {
    if |path| == 1 {
      EnterRowOpens(st, path[0]);
    } else {
      EnterIsGood(st, path[0]);
      EnterGrows(st, path[0]);
      var next := Enter(st, path[0]).state;
      TableArrayOpens(next, path[1..]);
      var last := TableArray(st, path).state;
      GrownThenOpened(st.root, next.root, last.root, next.curr, last.curr);
    }
  }

  // ---------- key/value lines ----------

  /** What stands at q after x was put at target: x and what is in it, missing tables on the way,
      and otherwise what was there. */
  predicate PutAt(before: Entry, after: Entry, target: Place, x: Entry, q: Place) {
    if target <= q then At(before, q) == None && At(after, q) == At(x, q[|target|..])
    else GrownAt(before, after, target, q)
  }

  /** An accepted line puts its value at its key, where nothing was, adds the tables its dotted keys
      spell where they are missing, and changes nothing else. */
  lemma {:induction false} KeyValuePuts(root: Entry, p: Place, path: seq<Key>, value: Literal, q: Place)
    requires IsTable(root, p) && KeyValue(root, p, path, value).Some?
    ensures Build(value).Some?
    ensures PutAt(root, KeyValue(root, p, path, value).value, p + AsNames(path), Build(value).value, q)
    decreases |path|
  {
    var t, key, c := TableAt(root, p), path[0], p + [Name(path[0])];
    PathStep(p, path);
    if |path| == 1 {
      assert p + AsNames(path) == c;
      InsertPuts(root, p, key, Build(value).value, q);
    } else if key in t {
      AtAppend(root, p, [Name(key)]);
      KeyValuePuts(root, c, path[1..], value, q);
    } else {
      var next := Insert(root, p, key, Sub(map[]));
      InsertAt(root, p, key, Sub(map[]), c);
      KeyValuePuts(next, c, path[1..], value, q);
      TableThenPut(root, p, key, q, p + AsNames(path));
      hide *;
      GrownThenPut(root, next, KeyValue(root, p, path, value).value, c, p + AsNames(path), Build(value).value, q);
    }
  }

  lemma InsertPuts(root: Entry, p: Place, key: Key, x: Entry, q: Place)
    requires IsTable(root, p) && key !in TableAt(root, p)
    ensures PutAt(root, Insert(root, p, key, x), p + [Name(key)], x, q)
  {
    var c := p + [Name(key)];
    InsertAt(root, p, key, x, q);
    if c <= q {
      AbsentBelow(root, p, key, q);
    } else if q <= c {
      assert q <= p;
      AboveExists(root, p, q);
    }
  }

  lemma GrownThenPut(before: Entry, between: Entry, after: Entry, c: Place, target: Place, x: Entry, q: Place)
    requires GrownAt(before, between, c, q) && c <= target && PutAt(between, after, target, x, q)
    requires target <= q ==> At(before, q) == None
    ensures PutAt(before, after, target, x, q)
  {
  }

  /** Places around a table just created at a new key. */
  lemma TableThenPut(root: Entry, p: Place, key: Key, q: Place, target: Place)
    requires IsTable(root, p) && key !in TableAt(root, p) && p + [Name(key)] <= target
    ensures GrownAt(root, Insert(root, p, key, Sub(map[])), p + [Name(key)], q)
    ensures target <= q ==> At(root, q) == None
  {
    var c := p + [Name(key)];
    InsertAt(root, p, key, Sub(map[]), q);
    if c <= q {
      AbsentBelow(root, p, key, q);
      assert q == c + q[|c|..];
    } else if q <= c {
      assert q <= p;
      AboveExists(root, p, q);
    }
    if target <= q {
      assert q[..|c|] == target[..|c|] == c;
    }
  }

  /** A key path cannot be written into e: its last key is there, or a key before it leads to no table. */
  ghost predicate Clashes(e: Entry, path: seq<Key>) {
    || At(e, AsNames(path)).Some?
    || exists i :: 0 < i < |path| && NotATable(e, path[..i])
  }

  predicate NotATable(e: Entry, path: seq<Key>) {
    At(e, AsNames(path)).Some? && !At(e, AsNames(path)).value.Sub?
  }

  lemma ClashesStep(t: map<Key, Entry>, path: seq<Key>)
    requires |path| >= 2
    ensures Clashes(Sub(t), path) <==> path[0] in t && (!t[path[0]].Sub? || Clashes(t[path[0]], path[1..]))
  {
    var k, rest := path[0], path[1..];
    forall i | 0 < i <= |path|
      ensures At(Sub(t), AsNames(path[..i])) == if k in t then At(t[k], AsNames(rest[..i - 1])) else None
    {
      assert path[..i][1..] == rest[..i - 1];
      assert AsNames(path[..i])[1..] == AsNames(rest[..i - 1]);
    }
    assert path[..|path|] == path && rest[..|rest|] == rest && rest[..0] == [];
    if k in t {
      if !t[k].Sub? {
        assert NotATable(Sub(t), path[..1]);
      } else if Clashes(t[k], rest) {
        if i :| 0 < i < |rest| && NotATable(t[k], rest[..i]) {
          assert NotATable(Sub(t), path[..i + 1]);
        }
      }
      if Clashes(Sub(t), path) && t[k].Sub? && At(Sub(t), AsNames(path)) == None {
        var i :| 0 < i < |path| && NotATable(Sub(t), path[..i]);
        assert NotATable(t[k], rest[..i - 1]);
      }
    }
  }

  lemma ClashesOne(t: map<Key, Entry>, k: Key)
    ensures Clashes(Sub(t), [k]) <==> k in t
  {
    var p := [Name(k)];
    assert AsNames([k]) == p by { assert [k][1..] == []; }
    assert p[1..] == [] && p[0] == Name(k);
    assert At(Sub(t), p).Some? <==> k in t;
  }

  /** A key/value line is accepted exactly when it has a key, its value is well keyed, its last key is
      free and the keys before it lead to tables or to nothing. */
  lemma {:induction false} KeyValueIff(root: Entry, p: Place, path: seq<Key>, value: Literal)
    requires IsTable(root, p)
    ensures KeyValue(root, p, path, value).Some?
            <==> path != [] && Build(value).Some? && !Clashes(At(root, p).value, path)
    decreases |path|
  {
    var t := TableAt(root, p);
    if path == [] {
    } else if |path| == 1 {
      assert path == [path[0]];
      ClashesOne(t, path[0]);
    } else {
      var k := path[0];
      ClashesStep(t, path);
      if k in t {
        AtAppend(root, p, [Name(k)]);
        if t[k].Sub? {
          KeyValueIff(root, p + [Name(k)], path[1..], value);
        }
      } else {
        InsertAt(root, p, k, Sub(map[]), p + [Name(k)]);
        KeyValueIff(Insert(root, p, k, Sub(map[])), p + [Name(k)], path[1..], value);
        NothingClashes(path[1..]);
      }
    }
  }

  lemma NothingClashes(path: seq<Key>)
    requires path != []
    ensures !Clashes(Sub(map[]), path)
  {
    if |path| == 1 {
      assert path == [path[0]];
      ClashesOne(map[], path[0]);
    } else {
      ClashesStep(map[], path);
    }
  }

  // ---------- inline tables ----------

  /** A later key path clashes with a value that was written where the path starts. */
  predicate TextClashes(value: Literal, path: seq<Key>)
    decreases value, 0
  {
    path == [] || !value.InlineTable? || ItemsClash(value.items, path)
  }

  /** It clashes with an item: it names the item or a table on the way to it, or runs into its value. */
  predicate ItemClashes(p: seq<Key>, value: Literal, path: seq<Key>)
    decreases value, 1
  {
    path <= p || (p <= path && TextClashes(value, path[|p|..]))
  }

  predicate ItemsClash(items: Items, path: seq<Key>)
    decreases items, 0
  {
    match items
    case NoItem => false
    case Item(p, value, rest) => ItemClashes(p, value, path) || ItemsClash(rest, path)
  }

  /** None of the later items clashes with this one. */
  predicate NoneClashes(p: seq<Key>, value: Literal, items: Items) {
    match items
    case NoItem => true
    case Item(path, _, rest) => !ItemClashes(p, value, path) && NoneClashes(p, value, rest)
  }

  /** Every key path of the text is there and clashes with no earlier one of its table. */
  predicate WellKeyed(value: Literal)
    decreases value
  {
    match value
    case Plain(_) => true
    case PlainList(_) => true
    case InlineTable(items) => ItemsWellKeyed(items)
    case InlineTables(first, others) => ItemsWellKeyed(first) && RowsWellKeyed(others)
  }

  predicate ItemsWellKeyed(items: Items)
    decreases items
  {
    match items
    case NoItem => true
    case Item(path, value, rest) =>
      path != [] && WellKeyed(value) && NoneClashes(path, value, rest) && ItemsWellKeyed(rest)
  }

  predicate RowsWellKeyed(rows: Rows)
    decreases rows
  {
    match rows
    case NoRow => true
    case Row(items, rest) => ItemsWellKeyed(items) && RowsWellKeyed(rest)
  }

  lemma {:induction false} AsNamesAppend(a: seq<Key>, b: seq<Key>)
    ensures AsNames(a + b) == AsNames(a) + AsNames(b) && |AsNames(a)| == |a|
  {
    if a == [] {
      assert a + b == b;
    } else {
      AsNamesAppend(a[1..], b);
      assert (a + b)[1..] == a[1..] + b && (a + b)[0] == a[0];
    }
  }

  lemma {:induction false} AsNamesPrefix(a: seq<Key>, b: seq<Key>)
    ensures AsNames(a) <= AsNames(b) <==> a <= b
  {
    if a != [] && b != [] {
      var a', b' := a[1..], b[1..];
      assert a == [a[0]] + a' && b == [b[0]] + b';
      if a[0] == b[0] {
        AsNamesPrefix(a', b');
        PrefixCons(a[0], a', b');
        PrefixCons(Name(a[0]), AsNames(a'), AsNames(b'));
      } else {
        assert AsNames(a)[0] != AsNames(b)[0];
      }
    }
  }

  /** A path clashes with an element written where the path starts. */
  ghost predicate ClashesAt(x: Entry, path: seq<Key>) {
    path == [] || !x.Sub? || Clashes(x, path)
  }

  /** What a key path finds after an item was written. */
  lemma AfterItem(table: Entry, p: seq<Key>, value: Literal, ks: seq<Key>)
    requires table.Sub? && KeyValue(table, [], p, value).Some?
    ensures Build(value).Some?
    ensures var found := At(KeyValue(table, [], p, value).value, AsNames(ks));
            var was := At(table, AsNames(ks));
            if p <= ks then was == None && found == At(Build(value).value, AsNames(ks[|p|..]))
            else if was.Some? then SameKind(was, found)
            else if ks <= p then found.Some? && found.value.Sub?
            else found == None
  {
    var target, q := AsNames(p), AsNames(ks);
    assert [] + target == target;
    KeyValuePuts(table, [], p, value, q);
    AsNamesPrefix(p, ks);
    AsNamesPrefix(ks, p);
    if p <= ks {
      assert ks == p + ks[|p|..];
      AsNamesAppend(p, ks[|p|..]);
      assert q[|target|..] == AsNames(ks[|p|..]);
    }
  }

  lemma ClashesAfterItem(table: Entry, p: seq<Key>, value: Literal, path: seq<Key>)
    requires table.Sub? && KeyValue(table, [], p, value).Some? && Build(value).Some? && p != [] && path != []
    ensures Clashes(KeyValue(table, [], p, value).value, path)
            <==> Clashes(table, path) || path <= p || (p <= path && ClashesAt(Build(value).value, path[|p|..]))
  {
    var next, x := KeyValue(table, [], p, value).value, Build(value).value;
    hide KeyValue, Build, AsNames;
    if Clashes(table, path) || path <= p || (p <= path && ClashesAt(x, path[|p|..])) {
      ItemMakesClash(table, next, p, value, x, path);
    }
    if Clashes(next, path) {
      ClashHasCause(table, next, p, value, x, path);
    }
  }

  lemma ItemMakesClash(table: Entry, next: Entry, p: seq<Key>, value: Literal, x: Entry, path: seq<Key>)
    requires table.Sub? && KeyValue(table, [], p, value) == Some(next) && Build(value) == Some(x) && p != [] && path != []
    requires Clashes(table, path) || path <= p || (p <= path && ClashesAt(x, path[|p|..]))
    ensures Clashes(next, path)
  {
    hide KeyValue, Build;
    AfterItem(table, p, value, path);
    if Clashes(table, path) {
      if i :| 0 < i < |path| && NotATable(table, path[..i]) {
        AfterItem(table, p, value, path[..i]);
        assert NotATable(next, path[..i]);
      }
    } else if path <= p {
      if path == p {
        assert path[|p|..] == [];
      }
    } else {
      var r := path[|p|..];
      if !x.Sub? {
        AfterItem(table, p, value, path[..|p|]);
        assert path[..|p|] == p && p[|p|..] == [];
        assert NotATable(next, path[..|p|]);
      } else if i :| 0 < i < |r| && NotATable(x, r[..i]) {
        var ks := path[..|p| + i];
        AfterItem(table, p, value, ks);
        assert p <= ks && ks[|p|..] == r[..i];
        assert NotATable(next, ks);
      }
    }
  }

  lemma ClashHasCause(table: Entry, next: Entry, p: seq<Key>, value: Literal, x: Entry, path: seq<Key>)
    requires table.Sub? && KeyValue(table, [], p, value) == Some(next) && Build(value) == Some(x) && p != []
    requires Clashes(next, path)
    ensures Clashes(table, path) || path <= p || (p <= path && ClashesAt(x, path[|p|..]))
  {
    hide KeyValue, Build;
    if At(next, AsNames(path)).Some? {
      AfterItem(table, p, value, path);
    } else {
      var i :| 0 < i < |path| && NotATable(next, path[..i]);
      var ks := path[..i];
      AfterItem(table, p, value, ks);
      if p <= ks {
        assert p <= path by { assert path[..|p|] == ks[..|p|]; }
        var r := path[|p|..];
        assert ks[|p|..] == r[..i - |p|];
        if i > |p| {
          assert NotATable(x, r[..i - |p|]);
        } else {
          assert r[..0] == [];
        }
      } else {
        assert NotATable(table, ks);
      }
    }
  }

  /** In the built element a path clashes exactly where it does in the text. */
  lemma {:induction false} BuiltClashes(value: Literal, path: seq<Key>)
    requires Build(value).Some?
    ensures ClashesAt(Build(value).value, path) <==> TextClashes(value, path)
    decreases value, 0
  {
    match value
    case Plain(_) =>
    case PlainList(_) =>
    case InlineTable(items) =>
      if path != [] {
        TableClashes(Sub(map[]), items, path);
        NothingClashes(path);
      }
    case InlineTables(first, others) =>
      BuildRowsKeep([BuildTable(Sub(map[]), first).value.entries], others);
  }

  lemma {:induction false} TableClashes(table: Entry, items: Items, path: seq<Key>)
    requires table.Sub? && BuildTable(table, items).Some? && path != []
    ensures Clashes(BuildTable(table, items).value, path) <==> Clashes(table, path) || ItemsClash(items, path)
    decreases items, 0
  {
    match items
    case NoItem =>
    case Item(p, value, rest) =>
      KeyValueIff(table, [], p, value);
      ClashesAfterItem(table, p, value, path);
      TableClashes(KeyValue(table, [], p, value).value, rest, path);
      if p <= path {
        BuiltClashes(value, path[|p|..]);
      }
  }

  /** A value is accepted exactly when its text is well keyed. */
  lemma {:induction false} BuildIff(value: Literal)
    ensures Build(value).Some? <==> WellKeyed(value)
    decreases value, 0
  {
    match value
    case Plain(_) =>
    case PlainList(_) =>
    case InlineTable(items) =>
      BuildTableIff(Sub(map[]), items);
      if ItemsWellKeyed(items) {
        EmptyTableFree(items);
      }
    case InlineTables(first, others) =>
      BuildTableIff(Sub(map[]), first);
      if ItemsWellKeyed(first) {
        EmptyTableFree(first);
      }
      if BuildTable(Sub(map[]), first).Some? {
        BuildRowsIff([BuildTable(Sub(map[]), first).value.entries], others);
      }
  }

  /** No item's path clashes with the table so far. */
  ghost predicate AllFree(table: Entry, items: Items) {
    match items
    case NoItem => true
    case Item(path, _, rest) => !Clashes(table, path) && AllFree(table, rest)
  }

  lemma {:induction false} EmptyTableFree(items: Items)
    requires ItemsWellKeyed(items)
    ensures AllFree(Sub(map[]), items)
  {
    match items
    case NoItem =>
    case Item(path, _, rest) =>
      NothingClashes(path);
      EmptyTableFree(rest);
  }

  /** After an item, the same paths are free but those that clash with the item. */
  lemma {:induction false} FreeAfterItem(table: Entry, p: seq<Key>, value: Literal, items: Items)
    requires table.Sub? && KeyValue(table, [], p, value).Some? && Build(value).Some? && p != []
    requires ItemsWellKeyed(items)
    ensures AllFree(KeyValue(table, [], p, value).value, items)
            <==> AllFree(table, items) && NoneClashes(p, value, items)
  {
    match items
    case NoItem =>
    case Item(path, _, rest) =>
      ClashesAfterItem(table, p, value, path);
      if p <= path {
        BuiltClashes(value, path[|p|..]);
      }
      FreeAfterItem(table, p, value, rest);
  }

  lemma {:induction false} BuildTableIff(table: Entry, items: Items)
    requires table.Sub?
    ensures BuildTable(table, items).Some? <==> AllFree(table, items) && ItemsWellKeyed(items)
    decreases items, 0
  {
    match items
    case NoItem =>
    case Item(p, value, rest) =>
      KeyValueIff(table, [], p, value);
      BuildIff(value);
      if KeyValue(table, [], p, value).Some? {
        BuildTableIff(KeyValue(table, [], p, value).value, rest);
        if ItemsWellKeyed(rest) {
          FreeAfterItem(table, p, value, rest);
        }
      }
  }

  lemma {:induction false} BuildRowsIff(rows: seq<map<Key, Entry>>, others: Rows)
    ensures BuildRows(rows, others).Some? <==> RowsWellKeyed(others)
    decreases others, 0
  {
    match others
    case NoRow =>
    case Row(items, rest) =>
      BuildTableIff(Sub(map[]), items);
      if ItemsWellKeyed(items) {
        EmptyTableFree(items);
        BuildRowsIff(rows + [BuildTable(Sub(map[]), items).value.entries], rest);
      }
  }

  // ---------- whole lines ----------

  predicate TableOrNothing(x: Option<Entry>) {
    x.Some? ==> x.value.Sub?
  }

  /** Exactly the key/value lines the parser accepts into the table at p. */
  ghost predicate AssignmentFits(root: Entry, p: Place, path: seq<Key>, value: Literal) {
    && path != [] && WellKeyed(value)
    && At(root, p + AsNames(path)) == None
    && forall i :: 0 < i < |path| ==> TableOrNothing(At(root, p + AsNames(path[..i])))
  }

  lemma AssignmentIff(st: State, path: seq<Key>, value: Literal)
    requires Good(st)
    ensures ParseLine(st, Assignment(path, value)).Ok? <==> AssignmentFits(st.root, st.curr, path, value)
  {
    BuildIff(value);
    KeyValueIff(st.root, st.curr, path, value);
    AtAppend(st.root, st.curr, AsNames(path));
    forall i | 0 < i < |path|
      ensures At(st.root, st.curr + AsNames(path[..i])) == At(At(st.root, st.curr).value, AsNames(path[..i]))
    {
      AtAppend(st.root, st.curr, AsNames(path[..i]));
    }
  }

  /** What an accepted line does to the tree: a table header makes at most empty tables, down to the
      place it moves to; an array header also opens a row there; a key/value line puts its value. */
  lemma LineDoes(st: State, line: Line)
    requires Good(st) && ParseLine(st, line).Ok?
    ensures var st' := ParseLine(st, line).state;
            match line
            case TableHeader(path) => Names(st'.curr) == path && GrownTo(st.root, st'.root, st'.curr)
            case ArrayHeader(path) => Names(st'.curr) == path && RowOpened(st.root, st'.root, st'.curr)
            case Assignment(path, value) =>
              && st'.curr == st.curr && Build(value).Some?
              && forall q :: PutAt(st.root, st'.root, st.curr + AsNames(path), Build(value).value, q)
  {
    match line
    case TableHeader(path) =>
      SingleTableKeepsLeaves(AtRoot(st), path, false);
      SingleTableGrows(AtRoot(st), path, false);
    case ArrayHeader(path) =>
      TableArrayKeepsLeaves(AtRoot(st), path);
      TableArrayOpens(AtRoot(st), path);
    case Assignment(path, value) =>
      KeyValueIff(st.root, st.curr, path, value);
      forall q
        ensures PutAt(st.root, ParseLine(st, line).state.root, st.curr + AsNames(path), Build(value).value, q)
      {
        KeyValuePuts(st.root, st.curr, path, value, q);
      }
  }

  /** A table array written as a value takes no further rows. */
  lemma InlineArrayIsClosed(st: State, path: seq<Key>, first: Items, others: Rows)
    requires Good(st) && ParseLine(st, Assignment(path, InlineTables(first, others))).Ok?
    ensures var st' := ParseLine(st, Assignment(path, InlineTables(first, others))).state;
            Good(st') && ParseLine(st', ArrayHeader(Names(st.curr) + path)).Rejected?
  {
    var value := InlineTables(first, others);
    var line := Assignment(path, value);
    var st', q := ParseLine(st, line).state, st.curr + AsNames(path);
    LineKeepsGood(st, line);
    KeyValuePuts(st.root, st.curr, path, value, q);
    assert q[|q|..] == [];
    BuildRowsInline([BuildTable(Sub(map[]), first).value.entries], others);
    AsNamesOnly(path);
    NamesAppend(st.curr, AsNames(path));
    forall i: nat | i < |q|
      ensures LastRowAt(st'.root, q, i)
    {
      if i < |st.curr| {
        assert LastRowAt(st'.root, st.curr, i);
        assert q[..i] == st.curr[..i];
      }
    }
    assert Taken(st'.root, q, Names(st.curr) + path);
    ArrayHeaderIff(st', Names(st.curr) + path);
  }

  lemma {:induction false} BuildRowsInline(rows: seq<map<Key, Entry>>, others: Rows)
    requires BuildRows(rows, others).Some?
    ensures BuildRows(rows, others).value.Tables? && BuildRows(rows, others).value.isInline
    decreases others
  {
    match others
    case NoRow =>
    case Row(items, rest) => BuildRowsInline(rows + [BuildTable(Sub(map[]), items).value.entries], rest);
  }

  lemma {:induction false} AsNamesOnly(path: seq<Key>)
    ensures Names(AsNames(path)) == path && |AsNames(path)| == |path|
    ensures forall i :: 0 <= i < |path| ==> AsNames(path)[i].Name?
  {
    if path != [] {
      AsNamesOnly(path[1..]);
      assert AsNames(path)[1..] == AsNames(path[1..]);
    }
  }
}
