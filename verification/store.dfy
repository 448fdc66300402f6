/**
 A key-value store with overwrite-on-write semantics. It models both the
 output directory of the parse step (file name to file content: opening a
 file with "w"/"wb" replaces it) and the vector index of the upload step
 (vector id to entry: `upsert` replaces any vector stored under the same id).
 */
module Store {
  import opened Common

  datatype Write<V> = Write(key: string, value: V)

  /** Some write in `ws` targets key `k`. */
  predicate Written<V>(ws: seq<Write<V>>, k: string)
  {
    exists i :: 0 <= i < |ws| && ws[i].key == k
  }

  /** Performs the writes in order; each one replaces what its key held. */
  function Apply<V>(m: map<string, V>, ws: seq<Write<V>>): map<string, V>
    decreases |ws|
  {
    if ws == [] then m else Apply(m[ws[0].key := ws[0].value], ws[1..])
  }

  /** After the writes a key is present exactly when it was before or some
      write targets it. */
  lemma {:induction false} ApplyKeys<V>(m: map<string, V>, ws: seq<Write<V>>, k: string)
    ensures k in Apply(m, ws) <==> k in m || Written(ws, k)
    decreases |ws|
  {
    if ws != [] {
      ApplyKeys(m[ws[0].key := ws[0].value], ws[1..], k);
      if Written(ws[1..], k) {
        var i :| 0 <= i < |ws[1..]| && ws[1..][i].key == k;
        assert ws[i + 1].key == k;
      }
      if Written(ws, k) && ws[0].key != k {
        var i :| 0 <= i < |ws| && ws[i].key == k;
        assert ws[1..][i - 1].key == k;
      }
    }
  }

  /** Reference reading of overwrite semantics: the value of the last write to
      `k`, found by scanning from the end. */
  function LastWrite<V>(ws: seq<Write<V>>, k: string): Option<V>
  {
    if ws == [] then None
    else if ws[|ws| - 1].key == k then Some(ws[|ws| - 1].value)
    else LastWrite(ws[..|ws| - 1], k)
  }

  /** Writing `a` then `b` is writing `a + b`. */
  lemma {:induction false} ApplyAppend<V>(m: map<string, V>, a: seq<Write<V>>, b: seq<Write<V>>)
    ensures Apply(m, a + b) == Apply(Apply(m, a), b)
    decreases |a|
  {
    if a != [] {
      assert (a + b)[1..] == a[1..] + b;
      ApplyAppend(m[a[0].key := a[0].value], a[1..], b);
    } else {
      assert a + b == b;
    }
  }

  /** The last write to a key decides it, whatever came before. */
  lemma {:induction false} LastWriteAppend<V>(a: seq<Write<V>>, b: seq<Write<V>>, k: string)
    ensures LastWrite(a + b, k) == if LastWrite(b, k).Some? then LastWrite(b, k) else LastWrite(a, k)
    decreases |b|
  {
    if b != [] {
      assert (a + b)[..|a + b| - 1] == a + b[..|b| - 1];
      LastWriteAppend(a, b[..|b| - 1], k);
    } else {
      assert a + b == a;
    }
  }

  /** Reading a write list from the front: a write is visible unless a later one overrides it. */
  lemma LastWriteCons<V>(w: Write<V>, ws: seq<Write<V>>, k: string)
    ensures LastWrite([w] + ws, k) == if LastWrite(ws, k).Some? then LastWrite(ws, k)
                                      else if w.key == k then Some(w.value) else None
  {
    LastWriteAppend([w], ws, k);
    assert [w][..0] == [];
  }

  /** No write targets `k` exactly when no last write exists. */
  lemma {:induction false} LastWriteNone<V>(ws: seq<Write<V>>, k: string)
    ensures LastWrite(ws, k).None? <==> !Written(ws, k)
    decreases |ws|
  {
    if ws != [] {
      var init := ws[..|ws| - 1];
      LastWriteNone(init, k);
      if Written(init, k) {
        var i :| 0 <= i < |init| && init[i].key == k;
        assert ws[i].key == k;
      }
      if Written(ws, k) && ws[|ws| - 1].key != k {
        var i :| 0 <= i < |ws| && ws[i].key == k;
        assert init[i].key == k;
      }
    }
  }

  lemma WrittenAppend<V>(a: seq<Write<V>>, b: seq<Write<V>>, k: string)
    ensures Written(a + b, k) <==> Written(a, k) || Written(b, k)
  {
    if Written(a + b, k) {
      var i :| 0 <= i < |a + b| && (a + b)[i].key == k;
      if i >= |a| { assert b[i - |a|].key == k; } else { assert a[i].key == k; }
    }
    if Written(a, k) {
      var i :| 0 <= i < |a| && a[i].key == k;
      assert (a + b)[i].key == k;
    }
    if Written(b, k) {
      var i :| 0 <= i < |b| && b[i].key == k;
      assert (a + b)[i + |a|].key == k;
    }
  }

  /** A write that no later write to the same key follows is the one that counts. */
  lemma {:induction false} LastWriteAt<V>(ws: seq<Write<V>>, i: nat, k: string)
    requires i < |ws| && ws[i].key == k
    requires forall j :: i < j < |ws| ==> ws[j].key != k
    ensures LastWrite(ws, k) == Some(ws[i].value)
    decreases |ws|
  {
    if i < |ws| - 1 {
      var init := ws[..|ws| - 1];
      assert init[i] == ws[i];
      assert forall j :: i < j < |init| ==> init[j] == ws[j];
      LastWriteAt(init, i, k);
    }
  }

  /** Overwrite-on-write: applying the writes leaves every key holding the
      value of its last write, and every key never written as it was. */
  lemma {:induction false} ApplyIsLastWrite<V>(m: map<string, V>, ws: seq<Write<V>>, k: string)
    ensures k in Apply(m, ws) <==> k in m || LastWrite(ws, k).Some?
    ensures LastWrite(ws, k).Some? ==> Apply(m, ws)[k] == LastWrite(ws, k).value
    ensures LastWrite(ws, k).None? && k in m ==> Apply(m, ws)[k] == m[k]
    decreases |ws|
  {
    LastWriteNone(ws, k);
    if ws != [] {
      var init := ws[..|ws| - 1];
      var last := ws[|ws| - 1];
      assert ws == init + [last];
      ApplyAppend(m, init, [last]);
      ApplyIsLastWrite(m, init, k);
      assert Apply(Apply(m, init), [last]) == Apply(m, init)[last.key := last.value];
    }
  }

  /** Keys that no write targets keep their value. */
  lemma ApplyFrame<V>(m: map<string, V>, ws: seq<Write<V>>, k: string)
    requires !Written(ws, k)
    ensures k in Apply(m, ws) <==> k in m
    ensures k in m ==> Apply(m, ws)[k] == m[k]
  {
    LastWriteNone(ws, k);
    ApplyIsLastWrite(m, ws, k);
  }
}
