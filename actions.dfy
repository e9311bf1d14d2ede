/** Edit operations, persistence work items, and the two list passes the server runs
    over operations read back from the version store: renumbering and transforming the
    operations that are not yet transformed. */
module Actions {
  import opened Wrappers

  /** One edit operation (`ActionInfo`). The edit itself is kept as its serialized
      form in `payload`, which the server never inspects. */
  datatype ActionInfo = ActionInfo(
    roomName: string,
    connectionId: string,
    currentUser: string,
    payload: string,
    version: int,
    isTransformed: bool)

  /** A persistence work item (`SaveInfo`): the operations to fold into the document,
      whether only the cleared side-list is to be evicted, and the room. */
  datatype SaveInfo = SaveInfo(actions: seq<ActionInfo>, partialSave: bool, roomName: string)

  /** The transform engine (`CollaborativeEditingHandler.TransformOperation`): rewrites
      an operation against the list it belongs to. `None` means the call threw. The
      engine is opaque; the model assumes it rewrites only the operation it is given. */
  type Transform = (ActionInfo, seq<ActionInfo>) -> Option<ActionInfo>

  /** The engine never throws. */
  ghost predicate NeverFails(transform: Transform) {
    forall a, ctx :: transform(a, ctx).Some?
  }

  /** The engine leaves version numbers alone. */
  ghost predicate KeepsVersion(transform: Transform) {
    forall a, ctx :: transform(a, ctx).Some? ==> transform(a, ctx).value.version == a.version
  }

  /** The range of a C# `int`. */
  const Int32Min: int := -0x8000_0000
  const Int32Max: int := 0x7fff_ffff

  predicate IsInt32(x: int) {
    Int32Min <= x <= Int32Max
  }

  /** Unchecked C# `int` arithmetic: the mathematical value wrapped into the 32-bit range
      (two's complement). */
  function Wrap32(x: int): (r: int)
    ensures IsInt32(r)
    ensures IsInt32(x) ==> r == x
    ensures Int32Max < x <= Int32Max + 0x1_0000_0000 ==> r == x - 0x1_0000_0000
  {
    Int32Min + (x - Int32Min) % 0x1_0000_0000
  }

  /** Wrapping after every increment is wrapping once at the end. */
  lemma WrapIncrement(x: int)
    ensures Wrap32(Wrap32(x) + 1) == Wrap32(x + 1)
  {
    var q := (x - Int32Min) / 0x1_0000_0000;
    var m := (x - Int32Min) % 0x1_0000_0000;
    assert x - Int32Min == q * 0x1_0000_0000 + m;
    if m + 1 == 0x1_0000_0000 {
      assert x + 1 - Int32Min == (q + 1) * 0x1_0000_0000;
    } else {
      assert x + 1 - Int32Min == q * 0x1_0000_0000 + (m + 1);
    }
  }

  /** All operations carry the version `ops.ForEach(op => op.Version = ++counter)` gives
      them when the 32-bit counter starts at `from`: the i-th gets `from + i + 1`, wrapped. */
  function Renumbered(ops: seq<ActionInfo>, from: int): (r: seq<ActionInfo>)
    ensures |r| == |ops|
  {
    if ops == [] then [] else [ops[0].(version := Wrap32(from + 1))] + Renumbered(ops[1..], from + 1)
  }

  /** How many of `n` operations numbered from `from` get a version above `from` before
      the counter wraps. */
  function BeforeWrap(n: nat, from: int): (m: nat)
    requires from <= Int32Max
    ensures m <= n
    ensures from + n <= Int32Max ==> m == n
    ensures from + n > Int32Max ==> m == Int32Max - from
  {
    if from + n <= Int32Max then n else Int32Max - from
  }

  /** The operations of `ops` whose version is above `v`, in order
      (`Where(action => action.Version > v)`). */
  function Newer(ops: seq<ActionInfo>, v: int): (r: seq<ActionInfo>)
    ensures |r| <= |ops|
    ensures forall k :: 0 <= k < |r| ==> r[k].version > v
  {
    if ops == [] then []
    else (if ops[0].version > v then [ops[0]] else []) + Newer(ops[1..], v)
  }

  /** Transforming the untransformed operations of `cur` from index `i` on, in index
      order; each call sees the list as it stands, with earlier rewrites in place. */
  function TransformFrom(cur: seq<ActionInfo>, i: nat, transform: Transform): (r: Option<seq<ActionInfo>>)
    requires i <= |cur|
    ensures r.Some? ==> |r.value| == |cur|
    decreases |cur| - i
  {
    if i == |cur| then Some(cur)
    else if cur[i].isTransformed then TransformFrom(cur, i + 1, transform)
    else match transform(cur[i], cur)
      case None => None
      case Some(t) => TransformFrom(cur[i := t], i + 1, transform)
  }

  /** `ops.Where(op => !op.IsTransformed).ToList().ForEach(op => TransformOperation(op, ops))`:
      the selection is made before any call, but at step `i` only entries before `i` have
      been rewritten, so testing the flag of the current entry selects the same ones. */
  function TransformPending(ops: seq<ActionInfo>, transform: Transform): Option<seq<ActionInfo>> {
    TransformFrom(ops, 0, transform)
  }

  /** The i-th renumbered operation is the i-th operation with version `from + i + 1`,
      wrapped to 32 bits. */
  lemma {:induction false} RenumberedAt(ops: seq<ActionInfo>, from: int, i: nat)
    requires i < |ops|
    ensures Renumbered(ops, from)[i] == ops[i].(version := Wrap32(from + i + 1))
    decreases i
  {
    if i > 0 {
      RenumberedAt(ops[1..], from + 1, i - 1);
    }
  }

  /** Renumbering keeps everything but the version. While the counter stays in range the
      versions run from `from + 1` with no gaps, so they strictly increase. */
  lemma RenumberedIsGapless(ops: seq<ActionInfo>, from: int)
    ensures forall i :: 0 <= i < |ops| ==>
      Renumbered(ops, from)[i].version == Wrap32(from + i + 1) &&
      Renumbered(ops, from)[i].(version := ops[i].version) == ops[i]
    ensures IsInt32(from) && from + |ops| <= Int32Max ==>
      (forall i :: 0 <= i < |ops| ==> Renumbered(ops, from)[i].version == from + i + 1) &&
      (forall i, j :: 0 <= i < j < |ops| ==> Renumbered(ops, from)[i].version < Renumbered(ops, from)[j].version)
  {
    forall i | 0 <= i < |ops|
      ensures Renumbered(ops, from)[i].version == Wrap32(from + i + 1)
      ensures Renumbered(ops, from)[i].(version := ops[i].version) == ops[i]
    {
      RenumberedAt(ops, from, i);
    }
  }

  /** When the first `m` versions lie above `v` and the others do not, the filter keeps
      exactly the first `m`. */
  lemma {:induction false} NewerPrefix(ops: seq<ActionInfo>, v: int, m: nat)
    requires m <= |ops|
    requires forall k :: 0 <= k < m ==> ops[k].version > v
    requires forall k :: m <= k < |ops| ==> ops[k].version <= v
    ensures Newer(ops, v) == ops[..m]
  {
    if ops != [] {
      if m > 0 {
        NewerPrefix(ops[1..], v, m - 1);
        assert [ops[0]] + ops[1..][..m - 1] == ops[..m];
      } else {
        NewerPrefix(ops[1..], v, 0);
      }
    }
  }

  /** Filtering a list extended by one operation extends the filtered list by that
      operation when its version is above `v`. */
  lemma {:induction false} NewerAppend(ops: seq<ActionInfo>, x: ActionInfo, v: int)
    ensures Newer(ops + [x], v) == Newer(ops, v) + (if x.version > v then [x] else [])
  {
    if ops == [] {
      assert [x][1..] == [];
    } else {
      assert (ops + [x])[1..] == ops[1..] + [x];
      NewerAppend(ops[1..], x, v);
    }
  }

  /** Numbering from `v + 1` and filtering by `> v` keeps, in order, exactly the operations
      numbered before the 32-bit counter wraps; when it does not wrap the filter removes
      nothing. (`v` is a C# `int` and a list has at most `Int32Max` entries.) */
  lemma NewerOfRenumbered(ops: seq<ActionInfo>, v: int)
    requires IsInt32(v) && |ops| <= Int32Max
    ensures Newer(Renumbered(ops, v), v) == Renumbered(ops, v)[..BeforeWrap(|ops|, v)]
    ensures v + |ops| <= Int32Max ==> Newer(Renumbered(ops, v), v) == Renumbered(ops, v)
  {
    var r := Renumbered(ops, v);
    var m := BeforeWrap(|ops|, v);
    forall k | 0 <= k < |ops|
      ensures k < m ==> r[k].version > v
      ensures m <= k ==> r[k].version <= v
    {
      RenumberedAt(ops, v, k);
    }
    NewerPrefix(r, v, m);
    assert r[..|ops|] == r;
  }

  /** What `TransformFrom` leaves: entries before `i` as they were; already transformed
      entries unchanged; every other entry `k` is what the engine made of it when given
      the list with the entries before `k` already rewritten. */
  lemma {:induction false} TransformFromSpec(cur: seq<ActionInfo>, i: nat, transform: Transform)
    requires i <= |cur| && TransformFrom(cur, i, transform).Some?
    ensures var r := TransformFrom(cur, i, transform).value;
      && r[..i] == cur[..i]
      && (forall k :: i <= k < |cur| && cur[k].isTransformed ==> r[k] == cur[k])
      && (forall k :: i <= k < |cur| && !cur[k].isTransformed ==>
            transform(cur[k], r[..k] + cur[k..]) == Some(r[k]))
    decreases |cur| - i
  {
    if i < |cur| {
      var r := TransformFrom(cur, i, transform).value;
      if cur[i].isTransformed {
        TransformFromSpec(cur, i + 1, transform);
      } else {
        var t := transform(cur[i], cur).value;
        var next := cur[i := t];
        TransformFromSpec(next, i + 1, transform);
        assert r[..i] == next[..i] == cur[..i] by {
          assert r[..i] == r[..i + 1][..i];
        }
        assert r[i] == t by {
          assert r[i] == r[..i + 1][i];
        }
        assert r[..i] + cur[i..] == cur;
        forall k | i < k < |cur| && !cur[k].isTransformed
          ensures transform(cur[k], r[..k] + cur[k..]) == Some(r[k])
        {
          assert next[k] == cur[k] && next[k..] == cur[k..];
        }
      }
    }
  }

  /** Only the untransformed operations go to the engine, in index order, each with the
      whole list as it stands then; the others come out unchanged. */
  lemma TransformPendingSpec(ops: seq<ActionInfo>, transform: Transform)
    requires TransformPending(ops, transform).Some?
    ensures var r := TransformPending(ops, transform).value;
      && |r| == |ops|
      && (forall k :: 0 <= k < |ops| && ops[k].isTransformed ==> r[k] == ops[k])
      && (forall k :: 0 <= k < |ops| && !ops[k].isTransformed ==>
            transform(ops[k], r[..k] + ops[k..]) == Some(r[k]))
  {
    TransformFromSpec(ops, 0, transform);
  }

  /** When every operation is already transformed, the engine is not called at all. */
  lemma {:induction false} AllTransformedUntouched(ops: seq<ActionInfo>, i: nat, transform: Transform)
    requires i <= |ops|
    requires forall k :: i <= k < |ops| ==> ops[k].isTransformed
    ensures TransformFrom(ops, i, transform) == Some(ops)
    decreases |ops| - i
  {
    if i < |ops| {
      AllTransformedUntouched(ops, i + 1, transform);
    }
  }

  /** The pass fails only by a failing engine call: an engine that never throws always
      yields a list. */
  lemma {:induction false} TransformFromSucceeds(cur: seq<ActionInfo>, i: nat, transform: Transform)
    requires i <= |cur| && NeverFails(transform)
    ensures TransformFrom(cur, i, transform).Some?
    decreases |cur| - i
  {
    if i < |cur| {
      if cur[i].isTransformed {
        TransformFromSucceeds(cur, i + 1, transform);
      } else {
        var t := transform(cur[i], cur);
        assert t.Some?;
        TransformFromSucceeds(cur[i := t.value], i + 1, transform);
      }
    }
  }

  /** With an engine that keeps versions, the pass keeps every version. */
  lemma TransformPendingKeepsVersions(ops: seq<ActionInfo>, transform: Transform)
    requires KeepsVersion(transform) && TransformPending(ops, transform).Some?
    ensures forall k :: 0 <= k < |ops| ==> TransformPending(ops, transform).value[k].version == ops[k].version
  {
    TransformPendingSpec(ops, transform);
    var r := TransformPending(ops, transform).value;
    forall k | 0 <= k < |ops| && !ops[k].isTransformed
      ensures r[k].version == ops[k].version
    {
      assert transform(ops[k], r[..k] + ops[k..]) == Some(r[k]);
    }
  }

  /** The renumbering loop: `ops.ForEach(op => op.Version = ++clientVersion)` on a 32-bit
      counter. */
  method RenumberFrom(ops: seq<ActionInfo>, clientVersion: int) returns (r: seq<ActionInfo>)
    ensures r == Renumbered(ops, clientVersion)
  {
    var counter := clientVersion;
    r := ops;
    var i := 0;
    while i < |r|
      invariant 0 <= i <= |r| == |ops|
      invariant i == 0 ==> counter == clientVersion
      invariant i > 0 ==> counter == Wrap32(clientVersion + i)
      invariant forall k :: 0 <= k < i ==> r[k] == ops[k].(version := Wrap32(clientVersion + k + 1))
      invariant forall k :: i <= k < |r| ==> r[k] == ops[k]
    {
      if i > 0 {
        WrapIncrement(clientVersion + i);
      }
      counter := Wrap32(counter + 1);
      r := r[i := r[i].(version := counter)];
      i := i + 1;
    }
    forall k | 0 <= k < |ops|
      ensures r[k] == Renumbered(ops, clientVersion)[k]
    {
      RenumberedAt(ops, clientVersion, k);
    }
  }

  /** The filtering loop behind `Where(action => action.Version > v).ToList()`: one pass
      from the front, appending each operation above `v`. */
  method KeepNewer(ops: seq<ActionInfo>, v: int) returns (r: seq<ActionInfo>)
    ensures r == Newer(ops, v)
  {
    r := [];
    for i := 0 to |ops|
      invariant r == Newer(ops[..i], v)
    {
      assert ops[..i + 1] == ops[..i] + [ops[i]];
      NewerAppend(ops[..i], ops[i], v);
      if ops[i].version > v {
        r := r + [ops[i]];
      }
    }
    assert ops[..|ops|] == ops;
  }

  /** The transform loop: each operation not yet transformed is passed to the engine
      together with the whole list; the first failing call ends the pass. */
  method TransformUntransformed(ops: seq<ActionInfo>, transform: Transform) returns (r: Option<seq<ActionInfo>>)
    ensures r == TransformPending(ops, transform)
  {
    var cur := ops;
    var i := 0;
    while i < |cur|
      invariant 0 <= i <= |cur| == |ops|
      invariant TransformFrom(cur, i, transform) == TransformPending(ops, transform)
    {
      if !cur[i].isTransformed {
        var t := transform(cur[i], cur);
        if t.None? {
          return None;
        }
        cur := cur[i := t.value];
      }
      i := i + 1;
    }
    r := Some(cur);
  }
}
