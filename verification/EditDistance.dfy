/** Levenshtein distance between floor identifiers, and the matching rule built on it. */
module EditDistance {
  import opened Basics

  /** What lining up the two last characters costs. */
  function Differ(a: string, b: string): nat
    requires a != [] && b != []
  {
    if a[|a| - 1] != b[|b| - 1] then 1 else 0
  }

  /** The cost table of the dynamic programme, one cell per pair of prefixes. */
  function Lev(a: string, b: string): nat
    decreases |a| + |b|
  {
    if a == [] then |b|
    else if b == [] then |a|
    else
      var a', b' := a[..|a| - 1], b[..|b| - 1];
      NatMin(NatMin(Lev(a, b') + 1, Lev(a', b) + 1), Lev(a', b') + Differ(a, b))
  }

  /** The table's cell for the first `i` and the first `j` characters. */
  function Cell(a: string, b: string, i: nat, j: nat): nat
    requires i <= |a| && j <= |b|
  {
    Lev(a[..i], b[..j])
  }

  lemma CellSteps(a: string, b: string, i: nat, j: nat)
    requires i <= |a| && j <= |b|
    ensures i == 0 ==> Cell(a, b, i, j) == j
    ensures j == 0 ==> Cell(a, b, i, j) == i
    ensures i > 0 && j > 0 ==>
      Cell(a, b, i, j) == NatMin(NatMin(Cell(a, b, i, j - 1) + 1, Cell(a, b, i - 1, j) + 1),
                              Cell(a, b, i - 1, j - 1) + if a[i - 1] != b[j - 1] then 1 else 0)
  {
    if i > 0 && j > 0 {
      assert a[..i][..i - 1] == a[..i - 1] && b[..j][..j - 1] == b[..j - 1];
    }
  }

  /** The two-row dynamic programme. */
  method Distance(left: string, right: string) returns (d: nat)
    ensures d == Lev(left, right)
  {
    var previous: seq<nat> := seq(|right| + 1, i => i);
    forall j | 0 <= j <= |right| ensures previous[j] == Cell(left, right, 0, j) {
      CellSteps(left, right, 0, j);
    }
    for row := 0 to |left|
      invariant |previous| == |right| + 1
      invariant forall j :: 0 <= j <= |right| ==> previous[j] == Cell(left, right, row, j)
    {
      var current: seq<nat> := [row + 1];
      CellSteps(left, right, row + 1, 0);
      for col := 0 to |right|
        invariant |current| == col + 1
        invariant forall j :: 0 <= j <= col ==> current[j] == Cell(left, right, row + 1, j)
      {
        CellSteps(left, right, row + 1, col + 1);
        current := current + [NatMin(NatMin(current[|current| - 1] + 1, previous[col + 1] + 1),
                                  previous[col] + if left[row] != right[col] then 1 else 0)];
      }
      previous := current;
    }
    assert left[..|left|] == left && right[..|right|] == right;
    d := previous[|previous| - 1];
  }

  // ----- the distance as the least number of single-character edits -----

  predicate Inserts(s: string, t: string, i: nat, c: char) { i <= |s| && t == s[..i] + [c] + s[i..] }

  predicate Deletes(s: string, t: string, i: nat) { i < |s| && t == s[..i] + s[i + 1..] }

  predicate Replaces(s: string, t: string, i: nat, c: char) { i < |s| && t == s[..i] + [c] + s[i + 1..] }

  /** `t` is `s` with one character inserted, deleted or replaced, anywhere. */
  ghost predicate OneEdit(s: string, t: string) {
    || (exists i: nat, c: char :: Inserts(s, t, i, c))
    || (exists i: nat :: Deletes(s, t, i))
    || (exists i: nat, c: char :: Replaces(s, t, i, c))
  }

  /** A script of edits, given by every text it passes through. */
  ghost predicate EditScript(texts: seq<string>, a: string, b: string) {
    && texts != [] && texts[0] == a && texts[|texts| - 1] == b
    && forall i :: 0 <= i < |texts| - 1 ==> OneEdit(texts[i], texts[i + 1])
  }

  lemma {:induction false} LevSymmetric(a: string, b: string)
    ensures Lev(a, b) == Lev(b, a)
    decreases |a| + |b|
  {
    if a != [] && b != [] {
      var a', b' := a[..|a| - 1], b[..|b| - 1];
      LevSymmetric(a, b');
      LevSymmetric(a', b);
      LevSymmetric(a', b');
    }
  }

  /** The distance is zero only between equal texts. */
  lemma {:induction false} LevZero(a: string, b: string)
    ensures Lev(a, b) == 0 <==> a == b
    decreases |a| + |b|
  {
    if a != [] && b != [] {
      var a', b' := a[..|a| - 1], b[..|b| - 1];
      LevZero(a', b');
      assert a == a' + [a[|a| - 1]] && b == b' + [b[|b| - 1]];
    }
  }

  /** The distance is at least the difference of the lengths and at most the longer length. */
  lemma {:induction false} LevLength(a: string, b: string)
    ensures |b| <= |a| + Lev(a, b) && |a| <= |b| + Lev(a, b)
    ensures Lev(a, b) <= |a| + |b|
    decreases |a| + |b|
  {
    if a != [] && b != [] {
      var a', b' := a[..|a| - 1], b[..|b| - 1];
      LevLength(a, b');
      LevLength(a', b);
      LevLength(a', b');
    }
  }

  lemma {:induction false} LevTriangle(a: string, b: string, c: string)
    ensures Lev(a, c) <= Lev(a, b) + Lev(b, c)
    decreases |a| + |b| + |c|
  {
    if a == [] {
      LevLength(b, c);
    } else if c == [] {
      LevLength(a, b);
    } else if b != [] {
      var a', b', c' := a[..|a| - 1], b[..|b| - 1], c[..|c| - 1];
      LevTriangle(a', b, c);
      LevTriangle(a, b, c');
      LevTriangle(a, b', c);
      LevTriangle(a', b', c);
      LevTriangle(a, b', c');
      LevTriangle(a', b', c');
    } else {
      LevLength(a, c);
    }
  }

  lemma {:induction false} LevCommonTail(a: string, b: string, tail: string)
    ensures Lev(a + tail, b + tail) <= Lev(a, b)
    decreases |tail|
  {
    if tail == [] {
      assert a + tail == a && b + tail == b;
    } else {
      var t' := tail[..|tail| - 1];
      assert (a + tail)[..|a + tail| - 1] == a + t' && (b + tail)[..|b + tail| - 1] == b + t';
      LevCommonTail(a, b, t');
    }
  }

  lemma LevLastCharacter(a: string, c: char, d: char)
    ensures Lev(a, a) == 0 && Lev(a, a + [c]) <= 1 && Lev(a + [c], a) <= 1 && Lev(a + [c], a + [d]) <= 1
  {
    LevZero(a, a);
    assert (a + [c])[..|a|] == a && (a + [d])[..|a|] == a;
  }

  lemma LevInserts(s: string, t: string, i: nat, c: char)
    requires Inserts(s, t, i, c)
    ensures Lev(s, t) <= 1 && Lev(t, s) <= 1
  {
    var front, tail := s[..i], s[i..];
    assert s == front + tail;
    LevLastCharacter(front, c, c);
    LevCommonTail(front, front + [c], tail);
    LevCommonTail(front + [c], front, tail);
  }

  lemma LevReplaces(s: string, t: string, i: nat, c: char)
    requires Replaces(s, t, i, c)
    ensures Lev(s, t) <= 1
  {
    var front, tail := s[..i], s[i + 1..];
    assert s == front + [s[i]] + tail;
    LevLastCharacter(front, s[i], c);
    LevCommonTail(front + [s[i]], front + [c], tail);
  }

  lemma LevOneEdit(s: string, t: string)
    requires OneEdit(s, t)
    ensures Lev(s, t) <= 1
  {
    if i: nat, c: char :| Inserts(s, t, i, c) {
      LevInserts(s, t, i, c);
    } else if i: nat :| Deletes(s, t, i) {
      assert t[..i] == s[..i] && t[i..] == s[i + 1..];
      assert Inserts(t, s, i, s[i]);
      LevInserts(t, s, i, s[i]);
    } else {
      var i: nat, c: char :| Replaces(s, t, i, c);
      LevReplaces(s, t, i, c);
    }
  }

  /** No script of edits is shorter than the distance. */
  lemma {:induction false} NoShorterScript(texts: seq<string>, a: string, b: string)
    requires EditScript(texts, a, b)
    ensures Lev(a, b) <= |texts| - 1
    decreases |texts|
  {
    if |texts| == 1 {
      LevZero(a, b);
    } else {
      NoShorterScript(texts[1..], texts[1], b);
      LevOneEdit(a, texts[1]);
      LevTriangle(a, texts[1], b);
    }
  }

  lemma OneEditTail(s: string, t: string, c: char)
    requires OneEdit(s, t)
    ensures OneEdit(s + [c], t + [c])
  {
    var s', t' := s + [c], t + [c];
    if i: nat, d: char :| Inserts(s, t, i, d) {
      assert s'[..i] == s[..i] && s'[i..] == s[i..] + [c];
      assert Inserts(s', t', i, d);
    } else if i: nat :| Deletes(s, t, i) {
      assert s'[..i] == s[..i] && s'[i + 1..] == s[i + 1..] + [c];
      assert Deletes(s', t', i);
    } else {
      var i: nat, d: char :| Replaces(s, t, i, d);
      assert s'[..i] == s[..i] && s'[i + 1..] == s[i + 1..] + [c];
      assert Replaces(s', t', i, d);
    }
  }

  /** The same edits in front of one more character. */
  lemma ScriptTail(texts: seq<string>, a: string, b: string, c: char) returns (longer: seq<string>)
    requires EditScript(texts, a, b)
    ensures EditScript(longer, a + [c], b + [c]) && |longer| == |texts|
  {
    longer := seq(|texts|, i requires 0 <= i < |texts| => texts[i] + [c]);
    forall i | 0 <= i < |texts| - 1 ensures OneEdit(longer[i], longer[i + 1]) {
      OneEditTail(texts[i], texts[i + 1], c);
    }
  }

  lemma ScriptAppend(texts: seq<string>, a: string, b: string, c: string)
    requires EditScript(texts, a, b) && OneEdit(b, c)
    ensures EditScript(texts + [c], a, c)
  {}

  lemma ScriptPrepend(a: string, texts: seq<string>, b: string, c: string)
    requires EditScript(texts, b, c) && OneEdit(a, b)
    ensures EditScript([a] + texts, a, c)
  {
    var longer := [a] + texts;
    forall i | 0 <= i < |longer| - 1 ensures OneEdit(longer[i], longer[i + 1]) {
      if i > 0 { assert longer[i] == texts[i - 1]; }
    }
  }

  lemma LastEdits(a: string, c: char, d: char)
    ensures OneEdit(a, a + [c]) && OneEdit(a + [c], a) && OneEdit(a + [c], a + [d])
  {
    assert Inserts(a, a + [c], |a|, c);
    assert Deletes(a + [c], a, |a|);
    assert Replaces(a + [c], a + [d], |a|, d);
  }

  /** Some script of edits is as short as the distance. */
  lemma {:induction false} ScriptExists(a: string, b: string) returns (texts: seq<string>)
    ensures EditScript(texts, a, b) && |texts| - 1 == Lev(a, b)
    decreases |a| + |b|
  {
    if a == [] && b == [] {
      texts := [a];
    } else if b != [] && (a == [] || Lev(a, b) == Lev(a, b[..|b| - 1]) + 1) {
      var b', d := b[..|b| - 1], b[|b| - 1];
      assert b == b' + [d];
      LastEdits(b', d, d);
      texts := ScriptExists(a, b');
      ScriptAppend(texts, a, b', b);
      texts := texts + [b];
    } else if a != [] && (b == [] || Lev(a, b) == Lev(a[..|a| - 1], b) + 1) {
      var a', c := a[..|a| - 1], a[|a| - 1];
      assert a == a' + [c];
      LastEdits(a', c, c);
      texts := ScriptExists(a', b);
      ScriptPrepend(a, texts, a', b);
      texts := [a] + texts;
    } else {
      var a', b', c, d := a[..|a| - 1], b[..|b| - 1], a[|a| - 1], b[|b| - 1];
      assert a == a' + [c] && b == b' + [d];
      texts := ScriptExists(a', b');
      texts := ScriptTail(texts, a', b', c);
      if c != d {
        LastEdits(b', c, d);
        ScriptAppend(texts, a, b' + [c], b);
        texts := texts + [b];
      }
    }
  }

  /** The dynamic programme computes the least number of edits that turn one text into the other. */
  lemma LevIsLeastEditCount(a: string, b: string)
    ensures exists texts :: EditScript(texts, a, b) && |texts| - 1 == Lev(a, b)
    ensures forall texts :: EditScript(texts, a, b) ==> Lev(a, b) <= |texts| - 1
  {
    var best := ScriptExists(a, b);
    forall texts | EditScript(texts, a, b) ensures Lev(a, b) <= |texts| - 1 {
      NoShorterScript(texts, a, b);
    }
  }

  /** A distance of at most one is equality or a single edit. */
  lemma NearIsOneEdit(a: string, b: string)
    ensures Lev(a, b) <= 1 <==> a == b || OneEdit(a, b)
  {
    LevZero(a, b);
    if OneEdit(a, b) { LevOneEdit(a, b); }
    if Lev(a, b) == 1 {
      var texts := ScriptExists(a, b);
      assert OneEdit(texts[0], texts[1]);
    }
  }

  // ----- matching a map floor to the network's floors -----

  datatype Candidate = Candidate(distance: nat, id: string)

  datatype FloorMatch =
    Exact(id: string) | TrailingDigitRemoved(id: string) | UniqueEditDistance1(id: string) | Unmatched

  function DropLast(s: string): string { if s == [] then [] else s[..|s| - 1] }

  ghost predicate Ascending(s: seq<Candidate>) {
    forall i, j :: 0 <= i < j < |s| ==> s[i].distance <= s[j].distance && s[i].id != s[j].id
  }

  /** The floors with their distances, nearest first, each once. */
  ghost predicate Ranked(s: seq<Candidate>, floors: set<string>, mapFloorId: string) {
    && Ascending(s)
    && (forall i :: 0 <= i < |s| ==> s[i].id in floors && s[i].distance == Lev(mapFloorId, s[i].id))
    && (forall v :: v in floors ==> Candidate(Lev(mapFloorId, v), v) in s)
  }

  function InsertByDistance(x: Candidate, s: seq<Candidate>): seq<Candidate> {
    if s == [] || x.distance <= s[0].distance then [x] + s else [s[0]] + InsertByDistance(x, s[1..])
  }

  lemma {:induction false} InsertMembers(x: Candidate, s: seq<Candidate>)
    ensures forall e :: e in InsertByDistance(x, s) <==> e == x || e in s
  {
    if s != [] && x.distance > s[0].distance {
      InsertMembers(x, s[1..]);
      assert s == [s[0]] + s[1..];
    }
  }

  lemma {:induction false} InsertKeepsAscending(x: Candidate, s: seq<Candidate>)
    requires Ascending(s)
    requires forall i :: 0 <= i < |s| ==> s[i].id != x.id
    ensures Ascending(InsertByDistance(x, s))
  {
    if s != [] && x.distance > s[0].distance {
      InsertKeepsAscending(x, s[1..]);
      InsertMembers(x, s[1..]);
      var rest := InsertByDistance(x, s[1..]);
      forall j | 0 <= j < |rest| ensures s[0].distance <= rest[j].distance && rest[j].id != s[0].id {
        assert rest[j] in rest;
      }
    }
  }

  lemma InsertRanked(s: seq<Candidate>, floors: set<string>, mapFloorId: string, value: string)
    requires Ranked(s, floors, mapFloorId) && value !in floors
    ensures Ranked(InsertByDistance(Candidate(Lev(mapFloorId, value), value), s), floors + {value}, mapFloorId)
  {
    var x := Candidate(Lev(mapFloorId, value), value);
    InsertKeepsAscending(x, s);
    InsertMembers(x, s);
    var r := InsertByDistance(x, s);
    forall i | 0 <= i < |r| ensures r[i].id in floors + {value} && r[i].distance == Lev(mapFloorId, r[i].id) {
      assert r[i] in r;
    }
  }

  ghost predicate OnlyNear(id: string, floors: set<string>, mapFloorId: string) {
    id in floors && Lev(mapFloorId, id) <= 1 && forall v :: v in floors && Lev(mapFloorId, v) <= 1 ==> v == id
  }

  /** The head of the ranking is the only near floor exactly when it is near and the next one is farther. */
  lemma HeadDecides(s: seq<Candidate>, floors: set<string>, mapFloorId: string, id: string)
    requires Ranked(s, floors, mapFloorId) && mapFloorId !in floors
    ensures OnlyNear(id, floors, mapFloorId)
       <==> s != [] && s[0].id == id && s[0].distance <= 1 && (|s| == 1 || s[1].distance > s[0].distance)
  {
    if s != [] && s[0].distance <= 1 && (|s| == 1 || s[1].distance > s[0].distance) {
      LevZero(mapFloorId, s[0].id);
      forall v | v in floors && Lev(mapFloorId, v) <= 1 ensures v == s[0].id {
        var i :| 0 <= i < |s| && s[i] == Candidate(Lev(mapFloorId, v), v);
      }
    }
  }

  method RankFloors(mapFloorId: string, floors: set<string>) returns (distances: seq<Candidate>)
    ensures Ranked(distances, floors, mapFloorId)
  {
    distances := [];
    var todo := floors;
    while todo != {}
      invariant todo <= floors
      invariant Ranked(distances, floors - todo, mapFloorId)
    {
      var value :| value in todo;
      var distance := Distance(mapFloorId, value);
      InsertRanked(distances, floors - todo, mapFloorId, value);
      distances := InsertByDistance(Candidate(distance, value), distances);
      assert floors - todo + {value} == floors - (todo - {value});
      todo := todo - {value};
    }
    assert floors - todo == floors;
  }

  /** The map floor is the id and one more character. */
  ghost predicate Shortened(id: string, mapFloorId: string) { exists c: char :: mapFloorId == id + [c] }

  lemma DropLastShortens(mapFloorId: string, floors: set<string>)
    requires mapFloorId !in floors
    ensures forall id :: id in floors && Shortened(id, mapFloorId) <==> id in floors && id == DropLast(mapFloorId)
  {
    if mapFloorId != "" {
      assert mapFloorId == DropLast(mapFloorId) + [mapFloorId[|mapFloorId| - 1]];
    }
    forall id, c: char | mapFloorId == id + [c] ensures id == DropLast(mapFloorId) {}
  }

  /** What each answer means, given the network's floors. */
  ghost predicate IsMatch(m: FloorMatch, mapFloorId: string, floors: set<string>) {
    match m
    case Exact(id) => id == mapFloorId && id in floors
    case TrailingDigitRemoved(id) => mapFloorId !in floors && id in floors && Shortened(id, mapFloorId)
    case UniqueEditDistance1(id) =>
      mapFloorId !in floors && (forall v :: v in floors ==> !Shortened(v, mapFloorId))
      && OnlyNear(id, floors, mapFloorId)
    case Unmatched =>
      mapFloorId !in floors && (forall v :: v in floors ==> !Shortened(v, mapFloorId))
      && !exists id :: OnlyNear(id, floors, mapFloorId)
  }

  function Floors(networkFloorIds: seq<string>): set<string> { set v | v in networkFloorIds && v != [] }

  /** The match chosen for a map floor among the network's non-empty floor ids. An answer by edit distance is
      the only network floor within one edit, and no answer means there is no such single floor. */
  method MatchFloorId(mapFloorId: string, networkFloorIds: seq<string>) returns (m: FloorMatch)
    ensures IsMatch(m, mapFloorId, Floors(networkFloorIds))
  {
    var floors := Floors(networkFloorIds);
    if mapFloorId in floors {
      return Exact(mapFloorId);
    }
    DropLastShortens(mapFloorId, floors);
    if DropLast(mapFloorId) in floors {
      return TrailingDigitRemoved(DropLast(mapFloorId));
    }
    var distances := RankFloors(mapFloorId, floors);
    forall id { HeadDecides(distances, floors, mapFloorId, id); }
    if distances == [] {
      return Unmatched;
    }
    var Candidate(bestDistance, bestValue) := distances[0];
    if bestDistance <= 1 && (|distances| == 1 || distances[1].distance > bestDistance) {
      return UniqueEditDistance1(bestValue);
    }
    return Unmatched;
  }

  /** No other floor is the map floor itself or one edit away from it. */
  ghost predicate NoOtherWithinOneEdit(id: string, floors: set<string>, mapFloorId: string) {
    forall v :: v in floors && v != id ==> v != mapFloorId && !OneEdit(mapFloorId, v)
  }

  /** Every floor answered is the map floor or one edit away from it, and the only near one exactly when no other floor
      is so; an answer by distance always is. */
  lemma AnswerIsNear(m: FloorMatch, mapFloorId: string, floors: set<string>)
    requires IsMatch(m, mapFloorId, floors) && !m.Unmatched?
    ensures m.id in floors && (m.id == mapFloorId || OneEdit(mapFloorId, m.id))
    ensures m.UniqueEditDistance1? ==> NoOtherWithinOneEdit(m.id, floors, mapFloorId)
    ensures OnlyNear(m.id, floors, mapFloorId) <==> NoOtherWithinOneEdit(m.id, floors, mapFloorId)
  {
    if m.TrailingDigitRemoved? {
      var last: char :| mapFloorId == m.id + [last];
      LastEdits(m.id, last, last);
    }
    forall v { NearIsOneEdit(mapFloorId, v); }
  }

  lemma FloorsOfTwo()
    ensures "A" in Floors(["A", "AC"]) && "AC" in Floors(["A", "AC"]) && "AB" !in Floors(["A", "AC"])
  {
    assert ["A", "AC"][0] == "A" && ["A", "AC"][1] == "AC";
  }

  /** Map floor "AB" is answered with network floor "A" although "AC" is one edit away as well. */
  lemma ShortenedNameNeedNotBeUnique(m: FloorMatch)
    requires IsMatch(m, "AB", Floors(["A", "AC"]))
    ensures m == TrailingDigitRemoved("A") && !OnlyNear("A", Floors(["A", "AC"]), "AB")
    ensures OneEdit("AB", "A") && OneEdit("AB", "AC")
  {
    FloorsOfTwo();
    var floors := Floors(["A", "AC"]);
    assert DropLast("AB") == "A";
    DropLastShortens("AB", floors);
    assert "A" + ['B'] == "AB" && "A" + ['C'] == "AC";
    LastEdits("A", 'B', 'C');
    NearIsOneEdit("AB", "AC");
  }
}
