/** The string key of a reader set (`Hub::key`), and its inverse: the trim in `Hub::ring`
    splits a key back into reader ids. */
module ReaderSets {
  import opened Addressing

  const NEWLINE: char := '\n'

  // ---------------------------------------------------------------- order on ids

  /** Byte order of strings, as `BTreeSet<String>` uses it. */
  predicate Below(a: string, b: string)
  {
    if b == "" then false
    else if a == "" then true
    else if a[0] != b[0] then a[0] < b[0]
    else Below(a[1..], b[1..])
  }

  lemma {:induction false} BelowIsStrictTotal(a: string, b: string)
    ensures !(Below(a, b) && Below(b, a))
    ensures a == b || Below(a, b) || Below(b, a)
    ensures !Below(a, a)
  {
    if a != "" { BelowIsStrictTotal(a[1..], a[1..]); }
    if a != "" && b != "" && a[0] == b[0] {
      BelowIsStrictTotal(a[1..], b[1..]);
      assert a == [a[0]] + a[1..] && b == [b[0]] + b[1..];
    }
  }

  lemma {:induction false} BelowTransitive(a: string, b: string, c: string)
    requires Below(a, b) && Below(b, c)
    ensures Below(a, c)
  {
    if a != "" && a[0] == b[0] && b[0] == c[0] {
      BelowTransitive(a[1..], b[1..], c[1..]);
    }
  }

  ghost predicate Increasing(ids: seq<string>)
  {
    forall i, j :: 0 <= i < j < |ids| ==> Below(ids[i], ids[j])
  }

  // ---------------------------------------------------------------- the key

  /** Insertion into a sorted list without repetition: what collecting into a
      `BTreeSet` does with one more id. */
  function Insert(ids: seq<string>, id: string): (r: seq<string>)
    requires Increasing(ids)
    ensures Increasing(r)
    ensures forall x :: x in r <==> x in ids || x == id
  {
    if ids == [] then [id]
    else if ids[0] == id then ids
    else
      BelowIsStrictTotal(ids[0], id);
      if Below(id, ids[0]) then
        assert forall j :: 0 < j < |ids| ==> Below(id, ids[j]) by {
          forall j | 0 < j < |ids| ensures Below(id, ids[j]) { BelowTransitive(id, ids[0], ids[j]); }
        }
        [id] + ids
      else
        var rest := Insert(ids[1..], id);
        assert forall j :: 0 <= j < |rest| ==> Below(ids[0], rest[j]) by {
          forall j | 0 <= j < |rest| ensures Below(ids[0], rest[j]) {
            assert rest[j] in rest;
            if rest[j] in ids[1..] {
              var k :| 0 <= k < |ids[1..]| && ids[1..][k] == rest[j];
              assert ids[k + 1] == rest[j];
            }
          }
        }
        [ids[0]] + rest
  }

  /** The distinct non-empty ids of `readers`, in order. */
  function DistinctIds(readers: seq<string>): (ids: seq<string>)
    ensures Increasing(ids)
    ensures forall x :: x in ids <==> x in readers && x != ""
  {
    if readers == [] then []
    else
      var rest := DistinctIds(readers[1..]);
      assert readers == [readers[0]] + readers[1..];
      if readers[0] == "" then rest else Insert(rest, readers[0])
  }

  function Join(ids: seq<string>): string
  {
    if ids == [] then ""
    else if |ids| == 1 then ids[0]
    else ids[0] + [NEWLINE] + Join(ids[1..])
  }

  function Key(readers: seq<string>): string
  {
    Join(DistinctIds(readers))
  }

  /** The pieces between newlines (`key.split('\n')`). */
  function SplitLines(text: string): (pieces: seq<string>)
    ensures |pieces| >= 1
  {
    if text == "" then [""]
    else
      var rest := SplitLines(text[1..]);
      if text[0] == NEWLINE then [""] + rest
      else [[text[0]] + rest[0]] + rest[1..]
  }

  predicate NewlineFree(readers: seq<string>)
  {
    forall i :: 0 <= i < |readers| ==> NEWLINE !in readers[i]
  }

  // ---------------------------------------------------------------- the round trip

  lemma {:induction false} SplitPrefix(id: string, rest: string)
    requires NEWLINE !in id
    ensures SplitLines(id + [NEWLINE] + rest) == [id] + SplitLines(rest)
    ensures SplitLines(id) == [id]
  {
    if id == "" {
      assert (id + [NEWLINE] + rest)[1..] == rest;
    } else {
      SplitPrefix(id[1..], rest);
      assert (id + [NEWLINE] + rest)[1..] == id[1..] + [NEWLINE] + rest;
      assert id == [id[0]] + id[1..];
    }
  }

  lemma {:induction false} SplitInvertsJoin(ids: seq<string>)
    requires ids != [] && NewlineFree(ids)
    ensures SplitLines(Join(ids)) == ids
  {
    if |ids| == 1 {
      SplitPrefix(ids[0], "");
    } else {
      SplitInvertsJoin(ids[1..]);
      SplitPrefix(ids[0], Join(ids[1..]));
    }
  }

  lemma DistinctIdsNewlineFree(readers: seq<string>)
    requires NewlineFree(readers)
    ensures NewlineFree(DistinctIds(readers))
  {
    var ids := DistinctIds(readers);
    forall i | 0 <= i < |ids| ensures NEWLINE !in ids[i] {
      assert ids[i] in ids;
    }
  }

  /** A wait whose readers are all empty, and only such a wait, has the empty key. */
  lemma EmptyKeyIff(readers: seq<string>)
    ensures Key(readers) == "" <==> forall i :: 0 <= i < |readers| ==> readers[i] == ""
  {
    var ids := DistinctIds(readers);
    if ids != [] {
      assert ids[0] in ids;
      assert ids[0] != "" && ids[0] in readers;
      assert |Join(ids)| >= |ids[0]|;
    } else {
      forall i | 0 <= i < |readers| ensures readers[i] == "" {
        assert readers[i] !in ids;
        assert readers[i] in readers;
      }
    }
  }

  /** Newline-free reader ids survive the round trip through the key: the trim, which
      splits the key, and the waiter, which scans its own list, see the same rings. */
  lemma KeyKeepsVisibility(readers: seq<string>, recipient: string)
    requires NewlineFree(readers)
    ensures AnySees(SplitLines(Key(readers)), recipient) == AnySees(readers, recipient)
  {
    var ids := DistinctIds(readers);
    DistinctIdsNewlineFree(readers);
    if ids != [] {
      SplitInvertsJoin(ids);
      if AnySees(ids, recipient) {
        var i :| 0 <= i < |ids| && Sees(ids[i], recipient);
        assert ids[i] in ids;
        var j :| 0 <= j < |readers| && readers[j] == ids[i];
        assert Sees(readers[j], recipient);
      }
    }
    if AnySees(readers, recipient) {
      var j :| 0 <= j < |readers| && Sees(readers[j], recipient);
      assert readers[j] in readers && readers[j] != "";
      assert readers[j] in ids;
      var i :| 0 <= i < |ids| && ids[i] == readers[j];
      assert Sees(ids[i], recipient);
    }
  }

  lemma TailMembers(ids: seq<string>)
    requires ids != [] && Increasing(ids)
    ensures forall x :: x in ids[1..] <==> x in ids && x != ids[0]
  {
    forall x ensures x in ids[1..] <==> x in ids && x != ids[0] {
      assert ids == [ids[0]] + ids[1..];
      if x in ids[1..] {
        var k :| 0 <= k < |ids[1..]| && ids[1..][k] == x;
        assert Below(ids[0], ids[k + 1]);
        BelowIsStrictTotal(x, x);
      }
    }
  }

  lemma FirstIsMember(ids: seq<string>)
    ensures ids == [] || ids[0] in ids
  {}

  lemma {:induction false} IncreasingIsDetermined(a: seq<string>, b: seq<string>)
    requires Increasing(a) && Increasing(b)
    requires forall x :: x in a <==> x in b
    ensures a == b
  {
    if a == [] {
      FirstIsMember(b);
    } else {
      assert a[0] in b;
      assert b != [];
      assert b[0] in a;
      if a[0] != b[0] {
        var i :| 0 <= i < |b| && b[i] == a[0];
        var j :| 0 <= j < |a| && a[j] == b[0];
        BelowIsStrictTotal(a[0], b[0]);
      }
      TailMembers(a);
      TailMembers(b);
      IncreasingIsDetermined(a[1..], b[1..]);
      assert a == [a[0]] + a[1..] && b == [b[0]] + b[1..];
    }
  }

  /** Among newline-free ids the key names the reader set: two lists have one key exactly
      when they hold the same non-empty ids, whatever the order and the repetitions. */
  lemma KeyIdentifiesReaderSet(readers: seq<string>, others: seq<string>)
    requires NewlineFree(readers) && NewlineFree(others)
    ensures Key(readers) == Key(others) <==>
            forall x :: x != "" ==> (x in readers <==> x in others)
  {
    var a, b := DistinctIds(readers), DistinctIds(others);
    DistinctIdsNewlineFree(readers);
    DistinctIdsNewlineFree(others);
    EmptyKeyIff(readers);
    EmptyKeyIff(others);
    if Key(readers) == Key(others) {
      if Key(readers) == "" {
        forall x | x != "" ensures x in readers <==> x in others {}
      } else {
        SplitInvertsJoin(a);
        SplitInvertsJoin(b);
        assert a == b;
        forall x | x != "" ensures x in readers <==> x in others {
          assert x in a <==> x in readers;
          assert x in b <==> x in others;
        }
      }
    }
    if forall x :: x != "" ==> (x in readers <==> x in others) {
      IncreasingIsDetermined(a, b);
    }
  }

  /** Without that restriction the trim and the waiter agree on every recipient exactly
      when each sees the other's ids, which a caller can check on the request itself. */
  lemma KeyVisibilityIff(readers: seq<string>)
    ensures (forall recipient :: AnySees(SplitLines(Key(readers)), recipient) == AnySees(readers, recipient)) <==>
            (var pieces := SplitLines(Key(readers));
             && (forall i :: 0 <= i < |readers| && readers[i] != "" ==> AnySees(pieces, readers[i]))
             && (forall i :: 0 <= i < |pieces| && pieces[i] != "" ==> AnySees(readers, pieces[i])))
  {
    var pieces := SplitLines(Key(readers));
    CoverageIff(readers, pieces);
    CoverageIff(pieces, readers);
    if && (forall i :: 0 <= i < |readers| && readers[i] != "" ==> AnySees(pieces, readers[i]))
       && (forall i :: 0 <= i < |pieces| && pieces[i] != "" ==> AnySees(readers, pieces[i])) {
      assert forall recipient :: AnySees(readers, recipient) ==> AnySees(pieces, recipient);
      assert forall recipient :: AnySees(pieces, recipient) ==> AnySees(readers, recipient);
    }
    if forall recipient :: AnySees(pieces, recipient) == AnySees(readers, recipient) {
      assert forall recipient :: AnySees(readers, recipient) ==> AnySees(pieces, recipient);
      assert forall recipient :: AnySees(pieces, recipient) ==> AnySees(readers, recipient);
    }
  }

  /** An id with a newline inside breaks the round trip: the waiter `a<newline>b` does not
      see recipient `a`, yet its key does, and shares that key with the waiter for `a`, `b`. */
  lemma NewlineBreaksTheKey(a: string, b: string)
    requires a != "" && b != "" && NewlineFree([a, b]) && Below(a, b)
    ensures var joined := a + [NEWLINE] + b;
            && AnySees(SplitLines(Key([joined])), a)
            && !AnySees([joined], a)
            && Key([joined]) == Key([a, b])
  {
    var joined := a + [NEWLINE] + b;
    assert NEWLINE !in [a, b][0] && NEWLINE !in [a, b][1];
    assert [joined][1..] == [] && [b][1..] == [] && [a, b][1..] == [b];
    assert DistinctIds([joined]) == [joined];
    SplitPrefix(a, b);
    assert SplitLines(joined)[0] == a;
    assert Sees(SplitLines(joined)[0], a);
    BelowIsStrictTotal(b, a);
    assert DistinctIds([b]) == [b];
    assert DistinctIds([a, b]) == [a, b];
    assert Join([b]) == b;
  }

  // ---------------------------------------------------------------- which keys are shared

  /** The key stands for two reader lists that do not hold the same non-empty ids. */
  ghost predicate Shared(key: string)
  {
    exists readers, others, x :: Key(readers) == key && Key(others) == key && Differ(readers, others, x)
  }

  predicate Differ(readers: seq<string>, others: seq<string>, x: string)
  {
    x != "" && x in readers && x !in others
  }

  /** The newline at `i` cuts the key into two non-empty ids, in order. */
  predicate CutsAt(key: string, i: nat)
  {
    i < |key| && key[i] == NEWLINE && key[..i] != "" && key[i + 1..] != "" && Below(key[..i], key[i + 1..])
  }

  lemma {:induction false} BelowExtends(a: string, b: string, tail: string)
    requires Below(a, b)
    ensures Below(a, b + tail)
  {
    if a != "" && a[0] == b[0] {
      BelowExtends(a[1..], b[1..], tail);
      assert (b + tail)[1..] == b[1..] + tail;
    }
  }

  /** A key of several ids is cut by its first newline between them. */
  lemma SeveralIdsCut(readers: seq<string>)
    requires |DistinctIds(readers)| >= 2
    ensures CutsAt(Key(readers), |DistinctIds(readers)[0]|)
  {
    var ids := DistinctIds(readers);
    var a, rest, i := ids[0], Join(ids[1..]), |ids[0]|;
    assert ids[0] in ids && ids[1] in ids;
    assert Key(readers) == a + [NEWLINE] + rest;
    assert Key(readers)[..i] == a && Key(readers)[i + 1..] == rest;
    assert ids[1] <= rest && rest == ids[1] + rest[|ids[1]|..];
    BelowExtends(a, ids[1], rest[|ids[1]|..]);
  }

  lemma OneId(id: string)
    requires id != ""
    ensures Key([id]) == id
  {
    assert [id][1..] == [];
    assert DistinctIds([id]) == [id];
  }

  lemma TwoIds(a: string, b: string)
    requires a != "" && b != "" && Below(a, b)
    ensures Key([a, b]) == a + [NEWLINE] + b
  {
    assert [a, b][1..] == [b] && [b][1..] == [];
    BelowIsStrictTotal(b, a);
    assert DistinctIds([b]) == [b];
    assert DistinctIds([a, b]) == [a, b];
    assert Join([b]) == b;
  }

  /** Without several ids a list is named by its key alone. */
  lemma FewIds(readers: seq<string>)
    requires |DistinctIds(readers)| < 2 && Key(readers) != ""
    ensures DistinctIds(readers) == [Key(readers)]
  {
    assert DistinctIds(readers) != [];
  }

  /** A key stands for two different reader sets exactly when some newline in it cuts it into
      two non-empty ids, in order: one id that holds a newline then passes for two. */
  lemma SharedIff(key: string)
    requires key != ""
    ensures Shared(key) <==> exists i: nat :: CutsAt(key, i)
  {
    if Shared(key) {
      var readers, others, x :| Key(readers) == key && Key(others) == key && Differ(readers, others, x);
      assert x in DistinctIds(readers) && x !in DistinctIds(others);
      if |DistinctIds(readers)| >= 2 {
        SeveralIdsCut(readers);
      } else if |DistinctIds(others)| >= 2 {
        SeveralIdsCut(others);
      } else {
        FewIds(readers);
        FewIds(others);
      }
    }
    if i: nat :| CutsAt(key, i) {
      var a, b := key[..i], key[i + 1..];
      assert key == a + [NEWLINE] + b;
      OneId(key);
      TwoIds(a, b);
      assert a in [a, b] && a !in [key];
      assert Differ([a, b], [key], a);
    }
  }
}
