/**
 * The Path fields buildResolver leaves behind when `append` is taken at its
 * Go meaning (resolver.go:284): a slice is a window on a shared backing
 * array, and `append` writes into that array in place while it has room.
 * The rest of the model gives every node a path of its own; this module
 * shows where the two part.
 */
module GoPaths {
  import opened Types

  /** A slice header: which backing array, and how many of its slots are visible. */
  datatype Slice = Slice(arr: nat, len: nat)

  /** The backing arrays allocated so far; the capacity of array `a` is `|mem[a]|`. */
  type Mem = seq<seq<string>>

  predicate SliceOk(mem: Mem, s: Slice) {
    s.arr < |mem| && s.len <= |mem[s.arr]|
  }

  /** What the slice shows: the first `len` slots of its array. */
  function Contents(mem: Mem, s: Slice): seq<string>
    requires SliceOk(mem, s)
  {
    mem[s.arr][..s.len]
  }

  /** `m'` only adds arrays to `m`, and keeps the capacity of every array already there. */
  ghost predicate Extends(m: Mem, m': Mem) {
    |m| <= |m'| && forall a :: 0 <= a < |m| ==> |m'[a]| == |m[a]|
  }

  /**
   * The capacity growslice picks for a full slice of capacity `cap` that must
   * hold `need` elements: `need` when that is more than double, else double.
   */
  function Grow(cap: nat, need: nat): (c: nat)
    ensures c >= need
  {
    if need > 2 * cap then need else 2 * cap
  }

  /** `n` empty strings: the unused tail of a fresh backing array. */
  function Blank(n: nat): (r: seq<string>)
    ensures |r| == n
  {
    if n == 0 then [] else [""] + Blank(n - 1)
  }

  /**
   * `append(s, x)`: with room left, `x` is written into the slot after the
   * window, in the shared array; a full slice is copied into a new array.
   */
  function Append(mem: Mem, s: Slice, x: string): (r: (Mem, Slice))
    requires SliceOk(mem, s)
    ensures Extends(mem, r.0) && SliceOk(r.0, r.1) && r.1.len == s.len + 1
    ensures Contents(r.0, r.1) == Contents(mem, s) + [x]
  {
    var cap := |mem[s.arr]|;
    if s.len < cap then
      var a := mem[s.arr][s.len := x];
      assert a[..s.len + 1] == mem[s.arr][..s.len] + [x];
      (mem[s.arr := a], Slice(s.arr, s.len + 1))
    else
      var c := Grow(cap, s.len + 1);
      var a := Contents(mem, s) + [x] + Blank(c - (s.len + 1));
      assert a[..s.len + 1] == Contents(mem, s) + [x];
      (mem + [a], Slice(|mem|, s.len + 1))
  }

  /**
   * The aliasing itself: an append with room left overwrites slot `s.len` of
   * every longer slice on the same array, so that slot of a sibling's path
   * now shows the new name.
   */
  lemma AppendOverwrites(mem: Mem, s: Slice, x: string, other: Slice)
    requires SliceOk(mem, s) && SliceOk(mem, other)
    requires s.len < |mem[s.arr]| && other.arr == s.arr && other.len > s.len
    ensures var r := Append(mem, s, x);
      SliceOk(r.0, other) && Contents(r.0, other)[s.len] == x &&
      Contents(r.0, other) == Contents(mem, other)[s.len := x]
  {
  }

  /** `n` is a power of two. */
  predicate IsPow2(n: nat)
    decreases n
  {
    n == 1 || (n > 1 && n % 2 == 0 && IsPow2(n / 2))
  }

  /**
   * The capacity of the backing array of a path of length `len`, appended
   * one name at a time from nil: 0 for nil, otherwise the least power of
   * two that is at least `len` (CapBounds).
   */
  function Cap(len: nat): nat
    decreases len
  {
    if len <= 1 then len else 2 * Cap((len + 1) / 2)
  }

  /** The only odd power of two is 1. */
  lemma Pow2Odd(c: nat)
    requires IsPow2(c)
    ensures c % 2 == 1 ==> c == 1
  {
  }

  /** `Cap(len)` is a power of two. */
  lemma {:induction false} CapPow2(len: nat)
    requires len >= 1
    ensures IsPow2(Cap(len))
    decreases len
  {
    if len > 1 {
      var c := Cap((len + 1) / 2);
      CapPow2((len + 1) / 2);
      assert Cap(len) == 2 * c && (2 * c) / 2 == c;
    }
  }

  /** `Cap(len)` is a power of two in `[len, 2 * len)`, so the least one at least `len`. */
  lemma {:induction false} CapBounds(len: nat)
    requires len >= 1
    ensures IsPow2(Cap(len)) && len <= Cap(len) < 2 * len
    decreases len
  {
    CapPow2(len);
    if len > 1 {
      var h := (len + 1) / 2;
      CapBounds(h);
      var c := Cap(h);
      Pow2Odd(c);
      assert Cap(len) == 2 * c;
      assert len == 2 * h || len == 2 * h - 1;
    }
  }

  /** A path of length `len >= 1` fills its array exactly when `len` is a power of two. */
  lemma {:induction false} CapFull(len: nat)
    requires len >= 1
    ensures Cap(len) == len <==> IsPow2(len)
    decreases len
  {
    CapBounds(len);
    if IsPow2(len) && len > 1 {
      CapFull(len / 2);
      assert (len + 1) / 2 == len / 2;
    }
  }

  /** An append with room left keeps the capacity. */
  lemma {:induction false} CapSame(len: nat)
    requires 1 <= len < Cap(len)
    ensures Cap(len + 1) == Cap(len)
    decreases len
  {
    if len % 2 == 0 {
      var m := len / 2;
      assert Cap(len) == 2 * Cap(m);
      assert Cap(len + 1) == 2 * Cap(m + 1);
      CapSame(m);
    }
  }

  /** An append to a full path of length `len >= 1` doubles the capacity. */
  lemma {:induction false} CapDouble(len: nat)
    requires len >= 1 && Cap(len) == len
    ensures Cap(len + 1) == 2 * len
    decreases len
  {
    if len > 1 {
      var m := len / 2;
      assert Cap(len) == 2 * Cap((len + 1) / 2);
      assert len % 2 == 0 && (len + 1) / 2 == m;
      assert Cap(len + 1) == 2 * Cap(m + 1);
      CapDouble(m);
    }
  }

  /** The slice's array has the capacity a path of its length has. */
  predicate CapOk(mem: Mem, s: Slice) {
    SliceOk(mem, s) && |mem[s.arr]| == Cap(s.len)
  }

  lemma CapOkExtends(m: Mem, m': Mem, s: Slice)
    requires CapOk(m, s) && Extends(m, m')
    ensures CapOk(m', s)
  {
  }

  /**
   * The growth rule at buildResolver's appends: a child's name goes into
   * its parent's array, in place, exactly when the parent's path length is
   * not zero and not a power of two; otherwise the child gets a fresh array
   * and no slice that existed before changes.
   */
  lemma AppendCap(mem: Mem, s: Slice, x: string)
    requires CapOk(mem, s)
    ensures CapOk(Append(mem, s, x).0, Append(mem, s, x).1)
    ensures Append(mem, s, x).1.arr == s.arr <==> s.len >= 1 && !IsPow2(s.len)
    ensures Append(mem, s, x).1.arr != s.arr ==>
      Append(mem, s, x).1.arr == |mem| && Append(mem, s, x).0[..|mem|] == mem
  {
    if s.len >= 1 {
      CapBounds(s.len);
      CapFull(s.len);
      if s.len < Cap(s.len) {
        CapSame(s.len);
      } else {
        CapDouble(s.len);
      }
    }
  }

  /** Every path slice of the subtree of `t` has the capacity its length gives. */
  lemma {:induction false} NodeCaps(t: Type, mem: Mem, path: Slice)
    requires CapOk(mem, path)
    ensures forall k :: 0 <= k < |NodeSlices(t, mem, path).1| ==>
      CapOk(NodeSlices(t, mem, path).0, NodeSlices(t, mem, path).1[k])
    decreases t, 1
  {
    var u := Deref(t);
    if u.Struct? {
      FieldCaps(u, 0, mem, path);
    }
  }

  /** The same for the field loop from field `i`. */
  lemma {:induction false} FieldCaps(u: Type, i: nat, mem: Mem, path: Slice)
    requires u.Struct? && i <= |u.fields| && CapOk(mem, path)
    ensures forall k :: 0 <= k < |FieldSlices(u, i, mem, path).1| ==>
      CapOk(FieldSlices(u, i, mem, path).0, FieldSlices(u, i, mem, path).1[k])
    decreases u, 0, |u.fields| - i
  {
    if i < |u.fields| {
      var f := u.fields[i];
      assert f in u.fields;
      if !f.exported {
        FieldCaps(u, i + 1, mem, path);
      } else {
        var child := Append(mem, path, f.name);
        AppendCap(mem, path, f.name);
        NodeCaps(f.typ, child.0, child.1);
        var sub := NodeSlices(f.typ, child.0, child.1);
        CapOkExtends(mem, child.0, path);
        CapOkExtends(child.0, sub.0, path);
        FieldCaps(u, i + 1, sub.0, path);
        var rest := FieldSlices(u, i + 1, sub.0, path);
        forall k | 0 <= k < |sub.1|
          ensures CapOk(rest.0, sub.1[k])
        {
          CapOkExtends(sub.0, rest.0, sub.1[k]);
        }
      }
    }
  }

  /**
   * In the tree of any type, every path's array has the capacity `Cap` of
   * the path's length, so by AppendCap the children of a node at depth `d`
   * share its array exactly when `d` is not zero and not a power of two.
   */
  lemma PathCapacities(t: Type)
    ensures forall k :: 0 <= k < |NodeSlices(t, [[]], Slice(0, 0)).1| ==>
      CapOk(NodeSlices(t, [[]], Slice(0, 0)).0, NodeSlices(t, [[]], Slice(0, 0)).1[k])
  {
    NodeCaps(t, [[]], Slice(0, 0));
  }

  /**
   * buildResolver's paths, threaded through its depth-first order: the node
   * of type `t` has the slice `path`; the result is the memory after its
   * subtree and the slices of the subtree's nodes in pre-order.
   */
  function NodeSlices(t: Type, mem: Mem, path: Slice): (r: (Mem, seq<Slice>))
    requires SliceOk(mem, path)
    ensures Extends(mem, r.0) && |r.1| >= 1 && r.1[0] == path
    ensures forall k :: 0 <= k < |r.1| ==> SliceOk(r.0, r.1[k])
    decreases t, 1
  {
    var u := Deref(t);
    if u.Struct? then
      var fs := FieldSlices(u, 0, mem, path);
      (fs.0, [path] + fs.1)
    else (mem, [path])
  }

  /** The field loop of buildResolver from field `i`, under a node whose path is `path`. */
  function FieldSlices(u: Type, i: nat, mem: Mem, path: Slice): (r: (Mem, seq<Slice>))
    requires u.Struct? && i <= |u.fields| && SliceOk(mem, path)
    ensures Extends(mem, r.0)
    ensures forall k :: 0 <= k < |r.1| ==> SliceOk(r.0, r.1[k])
    decreases u, 0, |u.fields| - i
  {
    if i == |u.fields| then (mem, [])
    else
      var f := u.fields[i];
      assert f in u.fields;
      if !f.exported then FieldSlices(u, i + 1, mem, path)
      else
        var child := Append(mem, path, f.name);
        var sub := NodeSlices(f.typ, child.0, child.1);
        var rest := FieldSlices(u, i + 1, sub.0, path);
        assert forall k :: 0 <= k < |sub.1| ==> SliceOk(rest.0, sub.1[k]);
        (rest.0, sub.1 + rest.1)
  }

  /** The Path of every node of the tree of `t`, in pre-order, as the finished tree shows them; the root's is nil. */
  function PathsShown(t: Type): seq<seq<string>> {
    var r := NodeSlices(t, [[]], Slice(0, 0));
    seq(|r.1|, k requires 0 <= k < |r.1| => Contents(r.0, r.1[k]))
  }

  /** A field with an empty tag. */
  function Plain(name: string, typ: Type): FieldDesc {
    FieldDesc(name, typ, "", true)
  }

  /** `struct { A struct { B struct { C struct { X, Y string } } } }`: two sibling fields four levels down. */
  const T3 := Struct("T3", [Plain("X", Other("string")), Plain("Y", Other("string"))])
  const T2 := Struct("T2", [Plain("C", T3)])
  const T1 := Struct("T1", [Plain("B", T2)])
  const DEEP_PAIR := Struct("T0", [Plain("A", T1)])

  /** The backing arrays after the paths of A, B and C, of X, and of Y have been appended. */
  const MEM_C: Mem := [[], ["A"], ["A", "B"], ["A", "B", "C", ""]]
  const MEM_X: Mem := [[], ["A"], ["A", "B"], ["A", "B", "C", "X"]]
  const MEM_Y: Mem := [[], ["A"], ["A", "B"], ["A", "B", "C", "Y"]]

  /** Depths 1 to 3 each outgrow the parent's array (capacities 1, 2, 4); X and Y share the spare slot of C's. */
  lemma DeepPairAppends()
    ensures Append([[]], Slice(0, 0), "A") == ([[], ["A"]], Slice(1, 1))
    ensures Append([[], ["A"]], Slice(1, 1), "B") == ([[], ["A"], ["A", "B"]], Slice(2, 2))
    ensures Append([[], ["A"], ["A", "B"]], Slice(2, 2), "C") == (MEM_C, Slice(3, 3))
    ensures Append(MEM_C, Slice(3, 3), "X") == (MEM_X, Slice(3, 4))
    ensures Append(MEM_X, Slice(3, 3), "Y") == (MEM_Y, Slice(3, 4))
  {
    var m0: Mem := [[]];
    var m1: Mem := [[], ["A"]];
    var m2: Mem := [[], ["A"], ["A", "B"]];
    assert Append(m0, Slice(0, 0), "A").0 == m0 + [Contents(m0, Slice(0, 0)) + ["A"] + Blank(0)];
    assert Contents(m0, Slice(0, 0)) + ["A"] + Blank(0) == ["A"];
    assert m0 + [["A"]] == m1;
    assert Append(m1, Slice(1, 1), "B").0 == m1 + [Contents(m1, Slice(1, 1)) + ["B"] + Blank(0)];
    assert Contents(m1, Slice(1, 1)) + ["B"] + Blank(0) == ["A", "B"];
    assert m1 + [["A", "B"]] == m2;
    assert Blank(1) == [""];
    assert Append(m2, Slice(2, 2), "C").0 == m2 + [Contents(m2, Slice(2, 2)) + ["C"] + Blank(1)];
    assert Contents(m2, Slice(2, 2)) + ["C"] + Blank(1) == ["A", "B", "C", ""];
    assert m2 + [["A", "B", "C", ""]] == MEM_C;
    assert MEM_C[3][3 := "X"] == ["A", "B", "C", "X"];
    assert MEM_C[3 := ["A", "B", "C", "X"]] == MEM_X;
    assert MEM_X[3][3 := "Y"] == ["A", "B", "C", "Y"];
    assert MEM_X[3 := ["A", "B", "C", "Y"]] == MEM_Y;
  }

  /** C's subtree: X and Y both get the slice of length 4 on the shared array. */
  lemma DeepPairLevel3()
    ensures NodeSlices(T3, MEM_C, Slice(3, 3)) == (MEM_Y, [Slice(3, 3), Slice(3, 4), Slice(3, 4)])
  {
    DeepPairAppends();
    assert FieldSlices(T3, 2, MEM_Y, Slice(3, 3)) == (MEM_Y, []);
    assert NodeSlices(Other("string"), MEM_Y, Slice(3, 4)) == (MEM_Y, [Slice(3, 4)]);
    assert [Slice(3, 4)] + [] == [Slice(3, 4)];
    assert FieldSlices(T3, 1, MEM_X, Slice(3, 3)) == (MEM_Y, [Slice(3, 4)]);
    assert NodeSlices(Other("string"), MEM_X, Slice(3, 4)) == (MEM_X, [Slice(3, 4)]);
    assert [Slice(3, 4)] + [Slice(3, 4)] == [Slice(3, 4), Slice(3, 4)];
    assert FieldSlices(T3, 0, MEM_C, Slice(3, 3)) == (MEM_Y, [Slice(3, 4), Slice(3, 4)]);
    assert [Slice(3, 3)] + [Slice(3, 4), Slice(3, 4)] == [Slice(3, 3), Slice(3, 4), Slice(3, 4)];
  }

  /** The levels above: one field each, every one appended into a new array. */
  lemma DeepPairSlices()
    ensures NodeSlices(DEEP_PAIR, [[]], Slice(0, 0)) ==
      (MEM_Y, [Slice(0, 0), Slice(1, 1), Slice(2, 2), Slice(3, 3), Slice(3, 4), Slice(3, 4)])
  {
    DeepPairAppends();
    DeepPairLevel3();
    var n3 := [Slice(3, 3), Slice(3, 4), Slice(3, 4)];
    assert FieldSlices(T2, 1, MEM_Y, Slice(2, 2)) == (MEM_Y, []) && n3 + [] == n3;
    assert FieldSlices(T2, 0, [[], ["A"], ["A", "B"]], Slice(2, 2)) == (MEM_Y, n3);
    var n2 := [Slice(2, 2)] + n3;
    assert NodeSlices(T2, [[], ["A"], ["A", "B"]], Slice(2, 2)) == (MEM_Y, n2);
    assert FieldSlices(T1, 1, MEM_Y, Slice(1, 1)) == (MEM_Y, []) && n2 + [] == n2;
    assert FieldSlices(T1, 0, [[], ["A"]], Slice(1, 1)) == (MEM_Y, n2);
    var n1 := [Slice(1, 1)] + n2;
    assert NodeSlices(T1, [[], ["A"]], Slice(1, 1)) == (MEM_Y, n1);
    assert FieldSlices(DEEP_PAIR, 1, MEM_Y, Slice(0, 0)) == (MEM_Y, []) && n1 + [] == n1;
    assert FieldSlices(DEEP_PAIR, 0, [[]], Slice(0, 0)) == (MEM_Y, n1);
    assert [Slice(0, 0)] + n1 == [Slice(0, 0), Slice(1, 1), Slice(2, 2), Slice(3, 3), Slice(3, 4), Slice(3, 4)];
  }

  /**
   * In the tree buildResolver returns for DEEP_PAIR, the path of X reads
   * A.B.C.Y: the paths at depth 3 have length 3 and capacity 4, so X and Y
   * are both appended into the one spare slot and Y, appended last, wins.
   */
  lemma DeepPairAliased()
    ensures PathsShown(DEEP_PAIR) ==
      [[], ["A"], ["A", "B"], ["A", "B", "C"], ["A", "B", "C", "Y"], ["A", "B", "C", "Y"]]
  {
    DeepPairSlices();
    assert Contents(MEM_Y, Slice(0, 0)) == [];
    assert Contents(MEM_Y, Slice(1, 1)) == ["A"];
    assert Contents(MEM_Y, Slice(2, 2)) == ["A", "B"];
    assert Contents(MEM_Y, Slice(3, 3)) == ["A", "B", "C"];
    assert Contents(MEM_Y, Slice(3, 4)) == ["A", "B", "C", "Y"];
  }
}
