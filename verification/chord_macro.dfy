/** The `chords!` procedural macro of macros/src/lib.rs, as the function
    from the written chord list to the generated table: one `Chord` per
    definition and the index from each input key to the chords using it.
    A definition the macro rejects stops compilation; that is `Panic`. */
module ChordMacro {

  import opened Util
  import opened KeyEvent
  import opened Chording

  /** `[inputs] => [outputs]`. */
  datatype ChordDef = ChordDef(inputs: seq<Key>, outputs: seq<Key>)

  predicate Distinct(ks: seq<Key>)
  {
    forall a, b :: 0 <= a < b < |ks| ==> ks[a] != ks[b]
  }

  /** A definition the macro accepts: both lists non-empty (the parser
      requires it), and no input repeated (the perfect-hash map generator
      refuses duplicate keys). */
  predicate Accepted(d: ChordDef)
  {
    |d.inputs| > 0 && |d.outputs| > 0 && Distinct(d.inputs)
  }

  /** `key_chord_map.entry(key).or_default().push(i)` for every input of
      chord `i`. */
  function IndexAdd(m: map<Key, seq<nat>>, keys: seq<Key>, i: nat): (r: map<Key, seq<nat>>)
    requires Distinct(keys)
    ensures forall k :: k in r <==> k in m || k in keys
    ensures forall k :: k in r && k !in keys ==> r[k] == m[k]
    ensures forall k :: k in keys ==> r[k] == (if k in m then m[k] else []) + [i]
    decreases |keys|
  {
    if keys == [] then m
    else
      var k := keys[0];
      var m1 := m[k := (if k in m then m[k] else []) + [i]];
      assert forall a, b :: 0 <= a < b < |keys[1..]| ==> keys[1..][a] == keys[a + 1] && keys[1..][b] == keys[b + 1];
      assert k !in keys[1..];
      IndexAdd(m1, keys[1..], i)
  }

  /** The key-to-chords index over the definitions, built in order. */
  function KeyChordMap(defs: seq<ChordDef>): (r: map<Key, seq<nat>>)
    requires forall i :: 0 <= i < |defs| ==> Distinct(defs[i].inputs)
    ensures forall k :: k in r ==> forall n :: 0 <= n < |r[k]| ==>
      r[k][n] < |defs| && k in defs[r[k][n]].inputs
    ensures forall i, k :: 0 <= i < |defs| && k in defs[i].inputs ==> k in r && i in r[k]
    ensures forall k :: k in r ==> forall a, b :: 0 <= a < b < |r[k]| ==> r[k][a] < r[k][b]
  {
    IndexUpTo(defs, |defs|)
  }

  /** The generated index lists each chord at most once under a key, which
      is what `Chording.ChordLoopFiresFirst` asks of it. */
  lemma KeyChordMapDistinct(defs: seq<ChordDef>, k: Key)
    requires forall i :: 0 <= i < |defs| ==> Distinct(defs[i].inputs)
    requires k in KeyChordMap(defs)
    ensures DistinctIndices(KeyChordMap(defs)[k])
  {
    var s := KeyChordMap(defs)[k];
    forall a, b | 0 <= a < b < |s|
      ensures s[a] != s[b]
    {
      assert s[a] < s[b];
    }
  }

  /** The index after the first `count` definitions. */
  function IndexUpTo(defs: seq<ChordDef>, count: nat): (r: map<Key, seq<nat>>)
    requires count <= |defs|
    requires forall i :: 0 <= i < |defs| ==> Distinct(defs[i].inputs)
    ensures forall k :: k in r ==> forall n :: 0 <= n < |r[k]| ==>
      r[k][n] < count && k in defs[r[k][n]].inputs
    ensures forall i, k :: 0 <= i < count && k in defs[i].inputs ==> k in r && i in r[k]
    ensures forall k :: k in r ==> forall a, b :: 0 <= a < b < |r[k]| ==> r[k][a] < r[k][b]
    decreases count
  {
    if count == 0 then map[]
    else
      var i := count - 1;
      var prev := IndexUpTo(defs, i);
      var r := IndexAdd(prev, defs[i].inputs, i);
      ExtendIndex(defs, i, prev, r);
      r
  }

  /** Adding chord `i` keeps the index exact and ascending. */
  lemma ExtendIndex(defs: seq<ChordDef>, i: nat, prev: map<Key, seq<nat>>, r: map<Key, seq<nat>>)
    requires i < |defs|
    requires forall k :: k in prev ==> forall n :: 0 <= n < |prev[k]| ==>
      prev[k][n] < i && k in defs[prev[k][n]].inputs
    requires forall j, k :: 0 <= j < i && k in defs[j].inputs ==> k in prev && j in prev[k]
    requires forall k :: k in prev ==> forall a, b :: 0 <= a < b < |prev[k]| ==> prev[k][a] < prev[k][b]
    requires forall k :: k in r <==> k in prev || k in defs[i].inputs
    requires forall k :: k in r && k !in defs[i].inputs ==> r[k] == prev[k]
    requires forall k :: k in defs[i].inputs ==> r[k] == (if k in prev then prev[k] else []) + [i]
    ensures forall k :: k in r ==> forall n :: 0 <= n < |r[k]| ==>
      r[k][n] < i + 1 && k in defs[r[k][n]].inputs
    ensures forall j, k :: 0 <= j < i + 1 && k in defs[j].inputs ==> k in r && j in r[k]
    ensures forall k :: k in r ==> forall a, b :: 0 <= a < b < |r[k]| ==> r[k][a] < r[k][b]
  {
    ExtendSound(defs, i, prev, r);
    ExtendAscending(i, prev, r, defs[i].inputs);
    ExtendComplete(defs, i, prev, r);
  }

  /** Every chord listed under a key is an earlier one using the key. */
  ghost predicate Sound(defs: seq<ChordDef>, m: map<Key, seq<nat>>, count: nat)
    requires count <= |defs|
  {
    forall k :: k in m ==> forall n :: 0 <= n < |m[k]| ==> m[k][n] < count && k in defs[m[k][n]].inputs
  }

  ghost predicate Ascending(m: map<Key, seq<nat>>)
  {
    forall k :: k in m ==> forall a, b :: 0 <= a < b < |m[k]| ==> m[k][a] < m[k][b]
  }

  /** `r` is `prev` with `i` appended under each of `keys`. */
  ghost predicate Appended(prev: map<Key, seq<nat>>, r: map<Key, seq<nat>>, keys: seq<Key>, i: nat)
  {
    (forall k :: k in r <==> k in prev || k in keys)
    && (forall k :: k in r && k !in keys ==> r[k] == prev[k])
    && (forall k :: k in keys ==> r[k] == (if k in prev then prev[k] else []) + [i])
  }

  lemma ExtendSound(defs: seq<ChordDef>, i: nat, prev: map<Key, seq<nat>>, r: map<Key, seq<nat>>)
    requires i < |defs| && Sound(defs, prev, i) && Appended(prev, r, defs[i].inputs, i)
    ensures Sound(defs, r, i + 1)
  {
    forall k | k in r
      ensures forall n :: 0 <= n < |r[k]| ==> r[k][n] < i + 1 && k in defs[r[k][n]].inputs
    {
      if k in defs[i].inputs {
        var o := if k in prev then prev[k] else [];
        assert r[k] == o + [i];
        forall n | 0 <= n < |r[k]|
          ensures r[k][n] < i + 1 && k in defs[r[k][n]].inputs
        {
          if n < |o| {
            assert r[k][n] == o[n];
          }
        }
      }
    }
  }

  lemma ExtendAscending(i: nat, prev: map<Key, seq<nat>>, r: map<Key, seq<nat>>, keys: seq<Key>)
    requires Ascending(prev) && Appended(prev, r, keys, i)
    requires forall k :: k in prev ==> forall n :: 0 <= n < |prev[k]| ==> prev[k][n] < i
    ensures Ascending(r)
  {
    forall k | k in r
      ensures forall a, b :: 0 <= a < b < |r[k]| ==> r[k][a] < r[k][b]
    {
      if k in keys {
        var o := if k in prev then prev[k] else [];
        assert r[k] == o + [i];
        forall a, b | 0 <= a < b < |r[k]|
          ensures r[k][a] < r[k][b]
        {
          assert r[k][a] == o[a];
          if b < |o| {
            assert r[k][b] == o[b];
          }
        }
      }
    }
  }

  lemma ExtendComplete(defs: seq<ChordDef>, i: nat, prev: map<Key, seq<nat>>, r: map<Key, seq<nat>>)
    requires i < |defs| && Appended(prev, r, defs[i].inputs, i)
    requires forall j, k :: 0 <= j < i && k in defs[j].inputs ==> k in prev && j in prev[k]
    ensures forall j, k :: 0 <= j < i + 1 && k in defs[j].inputs ==> k in r && j in r[k]
  {
    forall j, k | 0 <= j < i + 1 && k in defs[j].inputs
      ensures k in r && j in r[k]
    {
      if j < i {
        assert k in prev && j in prev[k];
        if k in defs[i].inputs {
          assert r[k] == prev[k] + [i];
        }
      } else {
        assert r[k] == (if k in prev then prev[k] else []) + [i];
      }
    }
  }

  /** The generated `Chord`: input j in slot j, all slots released, not
      active, the outputs as the action in written order. */
  function Generate(d: ChordDef): (c: Chord)
    requires Accepted(d)
    ensures ChordWf(c)
    ensures |c.keyMap| == |c.states| == |d.inputs|
    ensures forall j :: 0 <= j < |d.inputs| ==> c.keyMap[j] == (d.inputs[j], j) && !c.states[j]
    ensures !c.active && c.action == d.outputs
  {
    var states := seq(|d.inputs|, _ => false);
    assert !states[0];
    Chord(seq(|d.inputs|, j requires 0 <= j < |d.inputs| => (d.inputs[j], j)), states, false, d.outputs)
  }

  /** The whole expansion: the index and the chords, or a compile error
      when some definition is not accepted. */
  function Expand(defs: seq<ChordDef>): (r: Result<(map<Key, seq<nat>>, seq<Chord>)>)
    ensures r.Ok? <==> forall i :: 0 <= i < |defs| ==> Accepted(defs[i])
    ensures r.Ok? ==> r.value.0 == KeyChordMap(defs)
    ensures r.Ok? ==> |r.value.1| == |defs| && forall i :: 0 <= i < |defs| ==> r.value.1[i] == Generate(defs[i])
    ensures r.Ok? ==> Wf(NewEngine(r.value.0, r.value.1, 0))
  {
    if forall i :: 0 <= i < |defs| ==> Accepted(defs[i]) then
      var index := KeyChordMap(defs);
      var chords := seq(|defs|, i requires 0 <= i < |defs| => Generate(defs[i]));
      assert ChordsWf(chords);
      assert forall k :: k in index ==> IndicesIn(index[k], |chords|);
      Ok((index, chords))
    else Panic("invalid chord definition")
  }

  /** A key that is an input of exactly one chord indexes that chord
      alone. */
  lemma SoleChord(defs: seq<ChordDef>, k: Key, i: nat)
    requires forall j :: 0 <= j < |defs| ==> Distinct(defs[j].inputs)
    requires i < |defs| && k in defs[i].inputs
    requires forall j :: 0 <= j < |defs| && j != i ==> k !in defs[j].inputs
    ensures k in KeyChordMap(defs) && KeyChordMap(defs)[k] == [i]
  {
    var s := KeyChordMap(defs)[k];
    AscendingBounded(s, i, i);
  }

  /** A strictly ascending sequence within [lo, hi] has at most
      hi - lo + 1 elements. */
  lemma {:induction false} AscendingBounded(s: seq<nat>, lo: nat, hi: nat)
    requires lo <= hi + 1
    requires forall n :: 0 <= n < |s| ==> lo <= s[n] <= hi
    requires forall a, b :: 0 <= a < b < |s| ==> s[a] < s[b]
    ensures |s| <= hi - lo + 1
  {
    if s != [] {
      assert forall n :: 0 <= n < |s[1..]| ==> s[1..][n] == s[n + 1] && s[0] < s[n + 1];
      AscendingBounded(s[1..], s[0] + 1, hi);
    }
  }

  /** Under the lookup of the generated key map, input j finds slot j. */
  lemma GeneratedLookup(d: ChordDef, j: nat)
    requires Accepted(d) && j < |d.inputs|
    ensures Lookup(Generate(d).keyMap, d.inputs[j]) == Some(j)
  {
    var c := Generate(d);
    var r := Lookup(c.keyMap, d.inputs[j]);
    assert c.keyMap[j].0 == d.inputs[j];
    var n :| 0 <= n < |c.keyMap| && c.keyMap[n] == (d.inputs[j], r.value);
    assert d.inputs[n] == d.inputs[j];
  }
}
