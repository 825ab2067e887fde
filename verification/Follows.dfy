/** Follow links: a target's session that changed its id while staying the same
    process. The table is durable, mirrored in memory, replayed after a restart
    and chased from the id a target is configured with. */
module Follows {
  import opened Domain
  import opened Config

  datatype Link = Link(target: string, fromId: string, toId: string, pid: int, procStart: string, at: Time)

  /** A link's primary key: the target, and the id it leads away from. */
  type Key = (string, string)

  function KeyOf(f: Link): Key {
    (f.target, f.fromId)
  }

  /** The key of a link that would lead on from where `f` arrives. */
  function NextKey(f: Link): Key {
    (f.target, f.toId)
  }

  // ---- The table ----

  /** Rowids matter only for their order, so a counter that is never reused
      stands for one above the largest in use. */
  datatype Row = Row(link: Link, rowid: nat)
  datatype Table = Table(rows: map<Key, Row>, nextRowid: nat)

  const EMPTY_TABLE := Table(map[], 1)

  /** INSERT, or UPDATE in place when the key is already there. */
  function Upsert(t: Table, f: Link): Table {
    var k := KeyOf(f);
    if k in t.rows then t.(rows := t.rows[k := Row(f, t.rows[k].rowid)])
    else Table(t.rows[k := Row(f, t.nextRowid)], t.nextRowid + 1)
  }

  /** Stores a follow, and drops any older link leading away from where it
      arrived: that id is current now. */
  function RecordFollow(t: Table, f: Link): Table {
    var u := Upsert(t, f);
    u.(rows := u.rows - {NextKey(f)})
  }

  /** The links as memory holds them. */
  function LinksOf(t: Table): map<Key, Link> {
    map k | k in t.rows :: t.rows[k].link
  }

  /** Every row is under its own key, and a link that leads on from another is
      always the younger row. */
  ghost predicate Forward(t: Table) {
    && (forall k :: k in t.rows ==> KeyOf(t.rows[k].link) == k && t.rows[k].rowid < t.nextRowid)
    && (forall k :: k in t.rows && NextKey(t.rows[k].link) in t.rows ==>
          t.rows[k].rowid < t.rows[NextKey(t.rows[k].link)].rowid)
  }

  /** ... and was made no earlier. */
  ghost predicate TimeForward(t: Table) {
    forall k :: k in t.rows && NextKey(t.rows[k].link) in t.rows ==>
      t.rows[k].link.at <= t.rows[NextKey(t.rows[k].link)].link.at
  }

  ghost predicate NoneAfter(t: Table, at: Time) {
    forall k :: k in t.rows ==> t.rows[k].link.at <= at
  }

  /** Recording a follow keeps the rows ordered: by rowid whatever the clock
      did, and by time while it does not go backwards. */
  lemma RecordKeepsOrder(t: Table, f: Link)
    requires Forward(t)
    ensures Forward(RecordFollow(t, f))
    ensures TimeForward(t) && NoneAfter(t, f.at) ==>
              TimeForward(RecordFollow(t, f)) && NoneAfter(RecordFollow(t, f), f.at)
  {
  }

  // ---- The mirror kept in memory ----

  function Remember(m: map<Key, Link>, f: Link): map<Key, Link> {
    m[KeyOf(f) := f] - {NextKey(f)}
  }

  /** What is remembered in memory stays the image of what is stored. */
  lemma MemoryMirrorsTheTable(t: Table, f: Link)
    ensures LinksOf(RecordFollow(t, f)) == Remember(LinksOf(t), f)
  {
  }

  /** The link made is the one recorded for its session; what the session it leads to
      led to is forgotten; and no other link is touched. */
  lemma RecordingAFollow(t: Table, f: Link)
    requires f.fromId != f.toId
    ensures var before, after := LinksOf(t), LinksOf(RecordFollow(t, f));
            && (f.target, f.fromId) in after && after[(f.target, f.fromId)] == f
            && (f.target, f.toId) !in after
            && forall k :: k != (f.target, f.fromId) && k != (f.target, f.toId) ==>
                 (k in after <==> k in before) && (k in before ==> after[k] == before[k])
  {
  }

  // ---- Replay after a restart ----

  /** Oldest first; rows of the same moment in rowid order. */
  predicate Earlier(a: Row, b: Row) {
    a.link.at < b.link.at || (a.link.at == b.link.at && a.rowid < b.rowid)
  }

  /** A listing of the whole table in replay order. */
  ghost predicate ReplayOrder(t: Table, rows: seq<Row>) {
    && (forall i :: 0 <= i < |rows| ==> KeyOf(rows[i].link) in t.rows && t.rows[KeyOf(rows[i].link)] == rows[i])
    && (forall k :: k in t.rows ==> t.rows[k] in rows)
    && (forall i, j :: 0 <= i < j < |rows| ==> Earlier(rows[i], rows[j]))
  }

  function Place(rows: seq<Row>, x: Row): (r: seq<Row>)
    ensures forall y :: y in r <==> y in rows || y == x
  {
    if rows == [] then [x]
    else
      var n := |rows| - 1;
      assert rows == rows[..n] + [rows[n]];
      if Earlier(rows[n], x) then rows + [x] else Place(rows[..n], x) + [rows[n]]
  }

  lemma {:induction false} PlaceKeepsOrder(rows: seq<Row>, x: Row)
    requires forall i, j :: 0 <= i < j < |rows| ==> Earlier(rows[i], rows[j])
    requires forall i :: 0 <= i < |rows| ==> rows[i].rowid != x.rowid
    ensures forall i, j :: 0 <= i < j < |Place(rows, x)| ==> Earlier(Place(rows, x)[i], Place(rows, x)[j])
  {
    if rows != [] {
      var n := |rows| - 1;
      if Earlier(rows[n], x) {
        assert forall i :: 0 <= i < n ==> Earlier(rows[i], rows[n]);
      } else {
        PlaceKeepsOrder(rows[..n], x);
        var r := Place(rows[..n], x);
        forall i | 0 <= i < |r| ensures Earlier(r[i], rows[n]) {
          assert r[i] in r;
          if r[i] != x {
            var k :| 0 <= k < n && rows[..n][k] == r[i];
            assert Earlier(rows[k], rows[n]);
          }
        }
      }
    }
  }

  ghost predicate DistinctRowids(t: Table) {
    forall j, k :: j in t.rows && k in t.rows && j != k ==> t.rows[j].rowid != t.rows[k].rowid
  }

  /** Every recorded follow, oldest first. */
  method ReadFollows(t: Table) returns (rows: seq<Row>)
    requires Forward(t) && DistinctRowids(t)
    ensures ReplayOrder(t, rows)
  {
    rows := [];
    var left := t.rows.Keys;
    while left != {}
      invariant left <= t.rows.Keys && Taken(t, left, rows)
      invariant forall i, j :: 0 <= i < j < |rows| ==> Earlier(rows[i], rows[j])
      decreases |left|
    {
      var k :| k in left;
      PlaceKeepsOrder(rows, t.rows[k]);
      RowsTaken(t, left, rows, k);
      left, rows := left - {k}, Place(rows, t.rows[k]);
    }
  }

  /** `rows` holds the rows of every key but those in `left`. */
  ghost predicate Taken(t: Table, left: set<Key>, rows: seq<Row>) {
    && (forall x :: x in rows ==> KeyOf(x.link) in t.rows && KeyOf(x.link) !in left && t.rows[KeyOf(x.link)] == x)
    && (forall k :: k in t.rows && k !in left ==> t.rows[k] in rows)
  }

  lemma RowsTaken(t: Table, left: set<Key>, rows: seq<Row>, k: Key)
    requires Forward(t) && left <= t.rows.Keys && k in left && Taken(t, left, rows)
    ensures Taken(t, left - {k}, Place(rows, t.rows[k]))
  {
  }

  function Replay(rows: seq<Row>): map<Key, Link> {
    if rows == [] then map[] else Remember(Replay(rows[..|rows| - 1]), rows[|rows| - 1].link)
  }

  /** What replaying the first rows of a listing has built so far. */
  ghost predicate Built(rows: seq<Row>, m: map<Key, Link>) {
    && (forall i :: 0 <= i < |rows| ==> KeyOf(rows[i].link) in m && m[KeyOf(rows[i].link)] == rows[i].link)
    && (forall k :: k in m ==> exists i :: 0 <= i < |rows| && KeyOf(rows[i].link) == k)
  }

  /** No row comes after one that it leads to. */
  ghost predicate InOrder(rows: seq<Row>) {
    forall i, j :: 0 <= j <= i < |rows| ==> NextKey(rows[i].link) != KeyOf(rows[j].link)
  }

  ghost predicate OnePerKey(rows: seq<Row>) {
    forall i, j :: 0 <= i < j < |rows| ==> KeyOf(rows[i].link) != KeyOf(rows[j].link)
  }

  lemma {:induction false} ReplayInOrderBuilds(rows: seq<Row>)
    requires OnePerKey(rows) && InOrder(rows)
    ensures Built(rows, Replay(rows))
  {
    if rows != [] {
      var n := |rows| - 1;
      ReplayInOrderBuilds(rows[..n]);
      var m, r := Replay(rows[..n]), Replay(rows);
      forall i | 0 <= i < |rows| ensures KeyOf(rows[i].link) in r && r[KeyOf(rows[i].link)] == rows[i].link {
        assert NextKey(rows[n].link) != KeyOf(rows[i].link);
        assert i < n ==> rows[..n][i] == rows[i];
      }
      forall k | k in r ensures exists i :: 0 <= i < |rows| && KeyOf(rows[i].link) == k {
        if k == KeyOf(rows[n].link) {
        } else {
          var i :| 0 <= i < n && KeyOf(rows[..n][i].link) == k;
          assert KeyOf(rows[i].link) == k;
        }
      }
    }
  }

  lemma {:induction false} AForgottenKeyStaysForgotten(rows: seq<Row>, i: nat, k: Key)
    requires i < |rows| && NextKey(rows[i].link) == k
    requires forall j :: i < j < |rows| ==> KeyOf(rows[j].link) != k
    ensures k !in Replay(rows)
  {
    if i < |rows| - 1 {
      AForgottenKeyStaysForgotten(rows[..|rows| - 1], i, k);
    }
  }

  lemma ListedOnce(t: Table, rows: seq<Row>)
    requires ReplayOrder(t, rows)
    ensures OnePerKey(rows)
  {
    forall i, j | 0 <= i < j < |rows| ensures KeyOf(rows[i].link) != KeyOf(rows[j].link) {
      assert Earlier(rows[i], rows[j]);
    }
  }

  lemma BuiltIsTheTable(t: Table, rows: seq<Row>, m: map<Key, Link>)
    requires Forward(t) && ReplayOrder(t, rows) && Built(rows, m)
    ensures m == LinksOf(t)
  {
    forall k ensures k in m <==> k in t.rows {
      if k in m {
        var i :| 0 <= i < |rows| && KeyOf(rows[i].link) == k;
      }
      if k in t.rows {
        var i :| 0 <= i < |rows| && rows[i] == t.rows[k];
      }
    }
    forall k | k in m ensures m[k] == LinksOf(t)[k] {
      var i :| 0 <= i < |rows| && KeyOf(rows[i].link) == k;
    }
  }

  /** Replaying the table rebuilds its links exactly when no link was made later
      than one it leads to. */
  lemma ReplayRebuildsExactly(t: Table, rows: seq<Row>)
    requires Forward(t) && ReplayOrder(t, rows)
    ensures Replay(rows) == LinksOf(t) <==> TimeForward(t)
  {
    ListedOnce(t, rows);
    if TimeForward(t) {
      forall i, j | 0 <= j <= i < |rows| ensures NextKey(rows[i].link) != KeyOf(rows[j].link) {
        assert j < i ==> Earlier(rows[j], rows[i]);
      }
      ReplayInOrderBuilds(rows);
      BuiltIsTheTable(t, rows, Replay(rows));
    } else {
      var k :| k in t.rows && NextKey(t.rows[k].link) in t.rows
            && t.rows[k].link.at > t.rows[NextKey(t.rows[k].link)].link.at;
      var next := NextKey(t.rows[k].link);
      var i :| 0 <= i < |rows| && rows[i] == t.rows[k];
      forall j | i < j < |rows| ensures KeyOf(rows[j].link) != next {
        assert Earlier(rows[i], rows[j]);
      }
      AForgottenKeyStaysForgotten(rows, i, next);
      assert next in LinksOf(t);
    }
  }

  function RecordAll(t: Table, fs: seq<Link>): Table {
    if fs == [] then t else RecordFollow(RecordAll(t, fs[..|fs| - 1]), fs[|fs| - 1])
  }

  function RememberAll(m: map<Key, Link>, fs: seq<Link>): map<Key, Link> {
    if fs == [] then m else Remember(RememberAll(m, fs[..|fs| - 1]), fs[|fs| - 1])
  }

  ghost predicate InTimeOrder(fs: seq<Link>) {
    forall i, j :: 0 <= i < j < |fs| ==> fs[i].at <= fs[j].at
  }

  lemma {:induction false} RecordedTable(fs: seq<Link>)
    ensures var t := RecordAll(EMPTY_TABLE, fs);
            && Forward(t)
            && LinksOf(t) == RememberAll(map[], fs)
            && (InTimeOrder(fs) ==> TimeForward(t) && (fs != [] ==> NoneAfter(t, fs[|fs| - 1].at)) && (fs == [] ==> t.rows == map[]))
  {
    if fs != [] {
      var n := |fs| - 1;
      RecordedTable(fs[..n]);
      var t := RecordAll(EMPTY_TABLE, fs[..n]);
      RecordKeepsOrder(t, fs[n]);
      MemoryMirrorsTheTable(t, fs[n]);
      if InTimeOrder(fs) && n > 0 {
        assert fs[..n][n - 1] == fs[n - 1] && fs[n - 1].at <= fs[n].at;
      }
    }
  }

  /** Over any run of follows whose times never decrease, the durable table
      replayed after a restart is the map memory held. */
  lemma RestartAgreesWithMemory(fs: seq<Link>, rows: seq<Row>)
    requires InTimeOrder(fs)
    requires ReplayOrder(RecordAll(EMPTY_TABLE, fs), rows)
    ensures Replay(rows) == RememberAll(map[], fs)
  {
    RecordedTable(fs);
    ReplayRebuildsExactly(RecordAll(EMPTY_TABLE, fs), rows);
  }

  /** With a clock set back between two follows it is not: the older link is
      replayed last and takes the newer one with it. */
  lemma ABackwardClockBreaksReplay(a: Link, b: Link, rows: seq<Row>)
    requires a.target == b.target && a.toId == b.fromId && a.fromId != a.toId
    requires b.toId != b.fromId && b.toId != a.fromId
    requires a.at > b.at
    requires ReplayOrder(RecordAll(EMPTY_TABLE, [a, b]), rows)
    ensures Replay(rows) != RememberAll(map[], [a, b])
  {
    RecordedTable([a, b]);
    assert [a, b][..1] == [a] && [a][..0] == [];
    var one := RecordAll(EMPTY_TABLE, [a]);
    assert one == RecordFollow(EMPTY_TABLE, a) by { assert RecordAll(EMPTY_TABLE, []) == EMPTY_TABLE; }
    var t := RecordAll(EMPTY_TABLE, [a, b]);
    assert t == RecordFollow(one, b);
    assert KeyOf(a) in t.rows && t.rows[KeyOf(a)].link == a;
    assert KeyOf(b) in t.rows && t.rows[KeyOf(b)].link == b;
    ReplayRebuildsExactly(t, rows);
  }

  // ---- No cycles, ever ----

  /** A walk along stored links. */
  ghost predicate Walk(m: map<Key, Link>, path: seq<Key>) {
    forall i :: 0 <= i < |path| - 1 ==> path[i] in m && path[i + 1] == NextKey(m[path[i]])
  }

  /** Maps that memory can hold. */
  ghost predicate Reachable(m: map<Key, Link>) {
    exists t :: Forward(t) && LinksOf(t) == m
  }

  lemma RememberingStaysReachable(m: map<Key, Link>, f: Link)
    requires Reachable(m)
    ensures Reachable(Remember(m, f))
  {
    var t :| Forward(t) && LinksOf(t) == m;
    RecordKeepsOrder(t, f);
    MemoryMirrorsTheTable(t, f);
    assert Forward(RecordFollow(t, f)) && LinksOf(RecordFollow(t, f)) == Remember(m, f);
  }

  lemma {:induction false} ReplayedComesFromTheTable(t: Table, rows: seq<Row>)
    requires forall i :: 0 <= i < |rows| ==> KeyOf(rows[i].link) in t.rows && t.rows[KeyOf(rows[i].link)] == rows[i]
    ensures forall k :: k in Replay(rows) ==> k in t.rows && Replay(rows)[k] == t.rows[k].link
  {
    if rows != [] {
      ReplayedComesFromTheTable(t, rows[..|rows| - 1]);
    }
  }

  /** What a restart builds is such a map too, even where a clock set back made
      it less than what is stored. */
  lemma ReplayedIsReachable(t: Table, rows: seq<Row>)
    requires Forward(t) && ReplayOrder(t, rows)
    ensures Reachable(Replay(rows))
  {
    ReplayedComesFromTheTable(t, rows);
    var m := Replay(rows);
    var u := t.(rows := map k | k in t.rows && k in m :: t.rows[k]);
    assert Forward(u) && LinksOf(u) == m;
  }

  lemma {:induction false} WalksClimb(t: Table, path: seq<Key>, a: nat, b: nat)
    requires Forward(t) && Walk(LinksOf(t), path)
    requires a < b < |path| && path[b] in t.rows
    ensures path[a] in t.rows && t.rows[path[a]].rowid < t.rows[path[b]].rowid
  {
    assert path[b - 1] in LinksOf(t) && path[b - 1 + 1] == NextKey(LinksOf(t)[path[b - 1]]);
    if a < b - 1 {
      WalksClimb(t, path, a, b - 1);
    }
  }

  /** Whatever follows were recorded, and whatever the clock did, no walk along
      the links ever comes back to an id it has left. */
  lemma LinksNeverCycle(m: map<Key, Link>, path: seq<Key>, a: nat, b: nat)
    requires Reachable(m) && Walk(m, path) && a < b < |path|
    ensures path[a] != path[b]
  {
    var t :| Forward(t) && LinksOf(t) == m;
    if path[b] in t.rows {
      WalksClimb(t, path, a, b);
    } else {
      assert path[a] in m;
    }
  }

  // ---- Chasing ----

  /** The target is attached to a process, and this link was made in another. */
  predicate Elsewhere(a: Attachment, f: Link) {
    a.pid != 0 && a.procStart != "" && (a.pid != f.pid || a.procStart != f.procStart)
  }

  function MoveTo(t: Target, f: Link): Target {
    var a := t.attachment.(session := f.toId);
    t.(attachment := if f.pid != 0 && f.procStart != "" then a.(pid := f.pid, procStart := f.procStart) else a)
  }

  function At(t: Target): Key {
    (t.id, t.attachment.session)
  }

  predicate Stops(m: map<Key, Link>, t: Target, visited: set<string>) {
    || At(t) !in m
    || m[At(t)].toId in visited
    || m[At(t)].toId == t.attachment.session
    || Elsewhere(t.attachment, m[At(t)])
  }

  function Unvisited(m: map<Key, Link>, id: string, visited: set<string>): set<Key> {
    set k | k in m && !(k.0 == id && k.1 in visited)
  }

  /** Where a chase ends: termination needs nothing of the map. */
  function Chase(m: map<Key, Link>, t: Target, visited: set<string>): Target
    requires t.attachment.session !in visited
    decreases |Unvisited(m, t.id, visited)|
  {
    if Stops(m, t, visited) then t
    else
      var next := visited + {t.attachment.session};
      assert Unvisited(m, t.id, next) < Unvisited(m, t.id, visited) by {
        assert At(t) in Unvisited(m, t.id, visited) && At(t) !in Unvisited(m, t.id, next);
      }
      SmallerSet(Unvisited(m, t.id, next), Unvisited(m, t.id, visited));
      Chase(m, MoveTo(t, m[At(t)]), next)
  }

  lemma SmallerSet(a: set<Key>, b: set<Key>)
    requires a < b
    ensures |a| < |b|
  {
    var x :| x in b && x !in a;
    assert |b - a - {x}| + |{x}| + |a| == |b| by {
      assert b == (b - a - {x}) + {x} + a;
    }
  }

  /** Wherever a chase ends, it is the same target with another attachment. */
  lemma {:induction false} ChasingOnlyMoves(m: map<Key, Link>, t: Target, visited: set<string>)
    requires t.attachment.session !in visited
    ensures t == Chase(m, t, visited).(attachment := t.attachment)
    decreases |Unvisited(m, t.id, visited)|
  {
    if !Stops(m, t, visited) {
      var next := visited + {t.attachment.session};
      assert At(t) in Unvisited(m, t.id, visited) && At(t) !in Unvisited(m, t.id, next);
      SmallerSet(Unvisited(m, t.id, next), Unvisited(m, t.id, visited));
      ChasingOnlyMoves(m, MoveTo(t, m[At(t)]), next);
    }
  }

  /** Chases a target along the links, and says whether it ended elsewhere. */
  method ResolveFollows(m: map<Key, Link>, t: Target) returns (r: Target, changed: bool)
    ensures r == Chase(m, t, {})
    ensures changed <==> r.attachment.session != t.attachment.session
    ensures !changed ==> r == t
  {
    r, changed := t, false;
    var visited: set<string> := {};
    while !Stops(m, r, visited)
      invariant r.id == t.id && r.attachment.session !in visited
      invariant Chase(m, r, visited) == Chase(m, t, {})
      invariant changed <==> visited != {}
      invariant changed ==> t.attachment.session in visited
      invariant !changed ==> r == t
      decreases |Unvisited(m, r.id, visited)|
    {
      ghost var before := Unvisited(m, r.id, visited);
      assert At(r) in before;
      var f := m[At(r)];
      visited := visited + {r.attachment.session};
      SmallerSet(Unvisited(m, r.id, visited), before);
      r := MoveTo(r, f);
      changed := true;
    }
  }

  /** Nothing leads on from here, or the target is attached to another process
      than the one the link was made in. */
  predicate AtRest(m: map<Key, Link>, t: Target) {
    At(t) !in m || Elsewhere(t.attachment, m[At(t)])
  }

  lemma {:induction false} ChaseComesToRest(table: Table, t: Target, visited: set<string>)
    requires Forward(table)
    requires t.attachment.session !in visited
    requires forall v :: v in visited ==> (t.id, v) in table.rows
    requires At(t) in table.rows ==>
               forall v :: v in visited ==> table.rows[(t.id, v)].rowid < table.rows[At(t)].rowid
    ensures AtRest(LinksOf(table), Chase(LinksOf(table), t, visited))
    decreases |Unvisited(LinksOf(table), t.id, visited)|
  {
    var m := LinksOf(table);
    if !Stops(m, t, visited) {
      var next := visited + {t.attachment.session};
      assert At(t) in Unvisited(m, t.id, visited) && At(t) !in Unvisited(m, t.id, next);
      SmallerSet(Unvisited(m, t.id, next), Unvisited(m, t.id, visited));
      ChaseComesToRest(table, MoveTo(t, m[At(t)]), next);
    } else if At(t) in m {
      assert NextKey(m[At(t)]) == (t.id, m[At(t)].toId);
    }
  }

  /** On every map memory can hold, a chase stops only where it should, and
      chasing again from there moves nothing. */
  lemma ResolvingIsIdempotent(m: map<Key, Link>, t: Target)
    requires Reachable(m)
    ensures AtRest(m, Chase(m, t, {}))
    ensures Chase(m, Chase(m, t, {}), {}) == Chase(m, t, {})
  {
    var table :| Forward(table) && LinksOf(table) == m;
    ChaseComesToRest(table, t, {});
  }

  lemma {:induction false} AChaseEndsUnvisited(m: map<Key, Link>, t: Target, visited: set<string>)
    requires t.attachment.session !in visited
    ensures Chase(m, t, visited).attachment.session !in visited
    decreases |Unvisited(m, t.id, visited)|
  {
    if !Stops(m, t, visited) {
      var next := visited + {t.attachment.session};
      assert At(t) in Unvisited(m, t.id, visited) && At(t) !in Unvisited(m, t.id, next);
      SmallerSet(Unvisited(m, t.id, next), Unvisited(m, t.id, visited));
      AChaseEndsUnvisited(m, MoveTo(t, m[At(t)]), next);
    }
  }

  /** On any map at all, resolving a target moves it exactly when the link it stands
      at leads elsewhere and is not another process's; and it never ends where it
      began. */
  lemma ResolvingMovesExactly(m: map<Key, Link>, t: Target)
    ensures Chase(m, t, {}) == t <==> AtRest(m, t) || m[At(t)].toId == t.attachment.session
    ensures Chase(m, t, {}) != t ==> Chase(m, t, {}).attachment.session != t.attachment.session
  {
    if !Stops(m, t, {}) {
      var next := {} + {t.attachment.session};
      AChaseEndsUnvisited(m, MoveTo(t, m[At(t)]), next);
    }
  }

  // ---- Where a chase ends, by the links alone ----

  /** The link recorded for the session a target is at. */
  function LinkAt(m: map<Key, Link>, t: Target): Option<Link> {
    if (t.id, t.attachment.session) in m then Some(m[(t.id, t.attachment.session)]) else None
  }

  /** The target was pointed at a process on purpose, and this is another's link. */
  predicate OfAnotherProcess(t: Target, l: Link) {
    var a := t.attachment;
    a.pid != 0 && a.procStart != "" && !(a.pid == l.pid && a.procStart == l.procStart)
  }

  /** One step of a walk: to the session the link leads to, and to its process when
      it names one. */
  predicate LeadsTo(m: map<Key, Link>, t: Target, next: Target) {
    && LinkAt(m, t).Some?
    && var l := LinkAt(m, t).value;
       && !OfAnotherProcess(t, l)
       && next.attachment.session == l.toId
       && (if l.pid == 0 || l.procStart == ""
           then next.attachment.pid == t.attachment.pid && next.attachment.procStart == t.attachment.procStart
           else next.attachment.pid == l.pid && next.attachment.procStart == l.procStart)
       && next == t.(attachment := next.attachment)
  }

  /** A walk that visits no session twice. */
  ghost predicate IsWalk(m: map<Key, Link>, path: seq<Target>) {
    && path != []
    && (forall k :: 0 <= k < |path| - 1 ==> LeadsTo(m, path[k], path[k + 1]))
    && (forall j, k :: 0 <= j < k < |path| ==> path[j].attachment.session != path[k].attachment.session)
  }

  /** The walk cannot go on: there is no link, or another process's, or one back to a
      session it has visited. */
  ghost predicate WalkEnds(m: map<Key, Link>, path: seq<Target>)
    requires path != []
  {
    var last := path[|path| - 1];
    match LinkAt(m, last)
    case None => true
    case Some(l) => OfAnotherProcess(last, l) || exists k :: 0 <= k < |path| && path[k].attachment.session == l.toId
  }

  /** Resolving a target walks the links from where it is until it cannot go on; and
      there is only one such walk. */
  lemma ResolvingIsAWalk(m: map<Key, Link>, t: Target) returns (path: seq<Target>)
    ensures IsWalk(m, path) && path[0] == t && WalkEnds(m, path) && path[|path| - 1] == Chase(m, t, {})
  {
    path := WalkOn(m, [t], {});
  }

  lemma {:induction false} WalkOn(m: map<Key, Link>, before: seq<Target>, visited: set<string>) returns (path: seq<Target>)
    requires IsWalk(m, before)
    requires forall s :: s in visited <==> exists k :: 0 <= k < |before| - 1 && before[k].attachment.session == s
    requires before[|before| - 1].attachment.session !in visited
    ensures before <= path && IsWalk(m, path) && WalkEnds(m, path)
    ensures path[|path| - 1] == Chase(m, before[|before| - 1], visited)
    decreases |Unvisited(m, before[|before| - 1].id, visited)|
  {
    var t := before[|before| - 1];
    if Stops(m, t, visited) {
      path := before;
      if LinkAt(m, t).Some? && !OfAnotherProcess(t, LinkAt(m, t).value) {
        var to := LinkAt(m, t).value.toId;
        if to in visited {
          var k :| 0 <= k < |before| - 1 && before[k].attachment.session == to;
        } else {
          assert before[|before| - 1].attachment.session == to;
        }
      }
    } else {
      var next, seen := MoveTo(t, m[At(t)]), visited + {t.attachment.session};
      assert At(t) in Unvisited(m, t.id, visited) && At(t) !in Unvisited(m, t.id, seen);
      SmallerSet(Unvisited(m, t.id, seen), Unvisited(m, t.id, visited));
      var longer := before + [next];
      assert LeadsTo(m, t, next);
      assert IsWalk(m, longer);
      assert forall s :: s in seen <==> exists k :: 0 <= k < |longer| - 1 && longer[k].attachment.session == s by {
        forall s ensures s in seen <==> exists k :: 0 <= k < |longer| - 1 && longer[k].attachment.session == s {
          if s in visited {
            var k :| 0 <= k < |before| - 1 && before[k].attachment.session == s;
            assert longer[k].attachment.session == s;
          }
          if s == t.attachment.session { assert longer[|before| - 1].attachment.session == s; }
        }
      }
      path := WalkOn(m, longer, seen);
    }
  }

  /** Two walks from one target that cannot go on are one. */
  lemma {:induction false} OneWalk(m: map<Key, Link>, a: seq<Target>, b: seq<Target>, n: nat)
    requires IsWalk(m, a) && IsWalk(m, b) && a[0] == b[0] && WalkEnds(m, a) && WalkEnds(m, b)
    requires 0 < n <= |a|
    ensures n <= |b| && a[..n] == b[..n]
    ensures n == |a| ==> a == b
  {
    if n > 1 {
      OneWalk(m, a, b, n - 1);
      assert a[n - 2] == a[..n - 1][n - 2] == b[..n - 1][n - 2] == b[n - 2];
      assert LeadsTo(m, a[n - 2], a[n - 2 + 1]);
      if n - 1 == |b| {
        WalkGoesOn(m, a, b, n - 1);
      } else {
        assert LeadsTo(m, b[n - 2], b[n - 2 + 1]);
        assert a[n - 1] == b[n - 1];
      }
    }
    if n == |a| && |b| > n {
      assert b[..n] == a;
      WalkGoesOn(m, b, a, n);
    }
  }

  /** A walk that goes on from the end of another shows that one could. */
  lemma WalkGoesOn(m: map<Key, Link>, longer: seq<Target>, path: seq<Target>, n: nat)
    requires IsWalk(m, longer) && IsWalk(m, path) && n == |path| < |longer| && longer[..n] == path
    ensures !WalkEnds(m, path)
  {
    assert LeadsTo(m, longer[n - 1], longer[n - 1 + 1]);
    assert path[n - 1] == longer[n - 1];
    assert forall k :: 0 <= k < n ==> path[k] == longer[..n][k] == longer[k];
  }

  /** So a target ends exactly where the links lead it, whichever way that is found. */
  lemma AWalkEndsWhereResolvingDoes(m: map<Key, Link>, path: seq<Target>)
    requires IsWalk(m, path) && WalkEnds(m, path)
    ensures Chase(m, path[0], {}) == path[|path| - 1]
  {
    var other := ResolvingIsAWalk(m, path[0]);
    OneWalk(m, path, other, |path|);
  }

  /** The chase stops only because it was led back to a session it had left. */
  predicate ComesRound(m: map<Key, Link>, t: Target, visited: set<string>)
    requires t.attachment.session !in visited
    decreases |Unvisited(m, t.id, visited)|
  {
    if Stops(m, t, visited) then !AtRest(m, t) && m[At(t)].toId in visited
    else
      var next := visited + {t.attachment.session};
      assert At(t) in Unvisited(m, t.id, visited) && At(t) !in Unvisited(m, t.id, next);
      SmallerSet(Unvisited(m, t.id, next), Unvisited(m, t.id, visited));
      ComesRound(m, MoveTo(t, m[At(t)]), next)
  }

  lemma {:induction false} WhyAChaseEnds(m: map<Key, Link>, t: Target, visited: set<string>)
    requires t.attachment.session !in visited
    ensures var end := Chase(m, t, visited);
            ComesRound(m, t, visited) <==> !AtRest(m, end) && m[At(end)].toId != end.attachment.session
    decreases |Unvisited(m, t.id, visited)|
  {
    if !Stops(m, t, visited) {
      var next := visited + {t.attachment.session};
      assert At(t) in Unvisited(m, t.id, visited) && At(t) !in Unvisited(m, t.id, next);
      SmallerSet(Unvisited(m, t.id, next), Unvisited(m, t.id, visited));
      WhyAChaseEnds(m, MoveTo(t, m[At(t)]), next);
    }
  }

  /** On any map at all, resolving again moves nothing exactly when the first chase
      did not stop for having come round; and on a map memory can hold it never
      does. */
  lemma ResolvingTwiceSettlesExactly(m: map<Key, Link>, t: Target)
    ensures Chase(m, Chase(m, t, {}), {}) == Chase(m, t, {}) <==> !ComesRound(m, t, {})
    ensures Reachable(m) ==> !ComesRound(m, t, {})
  {
    WhyAChaseEnds(m, t, {});
    ResolvingMovesExactly(m, Chase(m, t, {}));
    if Reachable(m) {
      ResolvingIsIdempotent(m, t);
    }
  }

  /** A cyclic map, which no recording produces: resolving again moves again. */
  lemma ACycleNeverSettles(t: Target)
    requires t.id == "t" && t.attachment == Attachment("x", 0, "")
    ensures var m := map[("t", "x") := Link("t", "x", "y", 0, "", 1), ("t", "y") := Link("t", "y", "x", 0, "", 2)];
            var once := Chase(m, t, {});
            once.attachment.session == "y" && Chase(m, once, {}).attachment.session == "x"
  {
    var m := map[("t", "x") := Link("t", "x", "y", 0, "", 1), ("t", "y") := Link("t", "y", "x", 0, "", 2)];
    var u := MoveTo(t, m[At(t)]);
    assert "x"[0] != "y"[0];
    assert Chase(m, u, {"x"}) == u;
    assert Chase(m, MoveTo(u, m[At(u)]), {"y"}) == MoveTo(u, m[At(u)]);
    assert {} + {"x"} == {"x"} && {} + {"y"} == {"y"};
  }
}
