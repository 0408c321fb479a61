/** The registry tree an INF file describes: AddReg operations applied to nested maps of keys and values. */
module KeyTrees {
  import opened Bytes
  import opened Strings
  import opened Wrappers
  import Mkhive
  import MultiSz

  type Name = seq<byte>
  type Path = seq<Name>
  type RegValue = Mkhive.RegValue

  datatype Key = Key(subkeys: map<Name, Key>, values: map<Name, RegValue>)

  datatype AddRegOp = AddRegOp(keyPath: Name, valueName: Name, flags: u32, valueType: u32, data: seq<byte>)

  datatype ApplyError = AppendUnsupported | AppendTarget

  // ------------------------------------------------------------------ operations

  /** The flag that is worth `mask` is set. */
  predicate Flag(op: AddRegOp, mask: nat)
    requires mask > 0
  {
    op.flags / mask % 2 == 1
  }

  predicate NoClobber(op: AddRegOp) {
    op.flags / 0x2 % 2 == 1
  }

  predicate DelVal(op: AddRegOp) {
    op.flags / 0x4 % 2 == 1
  }

  predicate IsAppend(op: AddRegOp) {
    op.flags / 0x8 % 2 == 1
  }

  predicate KeyOnly(op: AddRegOp) {
    op.flags / 0x10 % 2 == 1
  }

  predicate OverwriteOnly(op: AddRegOp) {
    op.flags / 0x20 % 2 == 1
  }

  /** The parts between backslashes, empty ones dropped; `cur` is the part being read. */
  function Parts(path: Name, cur: Name): Path
    decreases |path|
  {
    if path == [] then if cur == [] then [] else [cur]
    else if path[0] == 0x5C then (if cur == [] then [] else [cur]) + Parts(path[1..], [])
    else Parts(path[1..], cur + [path[0]])
  }

  /** The key an operation is about: its path without the name of the hive's root in front. */
  function Target(hiveRoot: Name, op: AddRegOp): Path {
    var parts := Parts(op.keyPath, []);
    if parts != [] && Upper(parts[0]) == Upper(hiveRoot) then parts[1..] else parts
  }

  // ------------------------------------------------------------------ the place an operation is about

  /** Bytes that are no backslash go to the current part. */
  lemma {:induction false} PartsPass(path: seq<byte>, cur: seq<byte>, n: nat)
    requires n <= |path| && forall i :: 0 <= i < n ==> path[i] != 0x5C
    ensures Parts(path, cur) == Parts(path[n..], cur + path[..n])
  {
    if n == 0 {
      assert cur + path[..0] == cur;
    } else {
      PartsPass(path[1..], cur + [path[0]], n - 1);
      assert path[1..][n - 1..] == path[n..];
      assert cur + [path[0]] + path[1..][..n - 1] == cur + path[..n];
    }
  }

  /** The path is these components with backslashes between them. */
  ghost predicate Spells(path: Name, parts: seq<Name>) {
    && |parts| > 0 && (forall i {:trigger parts[i]} :: 0 <= i < |parts| ==> 0x5C !in parts[i])
    && path == Join(parts, 0x5C)
  }

  /** Every path is spelled somehow. */
  lemma {:induction false} Spelling(path: Name) returns (parts: seq<Name>)
    ensures Spells(path, parts)
    decreases |path|
  {
    if path == [] {
      parts := [[]];
    } else {
      var rest := Spelling(path[1..]);
      if path[0] == 0x5C {
        parts := [[]] + rest;
        assert parts[1..] == rest;
        assert path == [] + [path[0]] + path[1..];
      } else {
        parts := rest[0 := [path[0]] + rest[0]];
        assert parts[1..] == rest[1..];
        assert path == [path[0]] + path[1..];
        SpelledFront(path[0], rest);
      }
    }
  }

  lemma SpelledFront(c: byte, parts: seq<Name>)
    requires |parts| > 0
    ensures Join(parts[0 := [c] + parts[0]], 0x5C) == [c] + Join(parts, 0x5C)
  {
    var longer := parts[0 := [c] + parts[0]];
    assert longer[1..] == parts[1..];
    if |parts| > 1 {
      assert longer[0] + [0x5C] + Join(parts[1..], 0x5C) == [c] + (parts[0] + [0x5C] + Join(parts[1..], 0x5C));
    }
  }

  /** The parts of a path are its components that are not empty. */
  lemma {:induction false} PartsOf(path: Name, parts: seq<Name>, cur: Name)
    requires Spells(path, parts)
    ensures Parts(path, cur) == NonEmpty([cur + parts[0]] + parts[1..])
    decreases |parts|
  {
    var first := parts[0];
    var all := [cur + first] + parts[1..];
    assert all[1..] == parts[1..];
    assert path[..|first|] == first;
    PartsPass(path, cur, |first|);
    if |parts| == 1 {
      assert path[|first|..] == [] && NonEmpty(parts[1..]) == [];
    } else {
      var rest := Join(parts[1..], 0x5C);
      assert path[|first|..] == [0x5C] + rest && path[|first|..][1..] == rest;
      PartsOf(rest, parts[1..], []);
      assert [] + parts[1] == parts[1] && [parts[1]] + parts[2..] == parts[1..];
    }
  }

  /**
   The key an operation is about: the components that are not empty, without the first of them if it is the
   name of the hive's root up to case.
   */
  ghost function Place(hiveRoot: Name, parts: seq<Name>): Path {
    var filled := NonEmpty(parts);
    if filled != [] && SameLetters(filled[0], hiveRoot) then filled[1..] else filled
  }

  lemma TargetIs(hiveRoot: Name, op: AddRegOp, parts: seq<Name>)
    requires Spells(op.keyPath, parts)
    ensures Target(hiveRoot, op) == Place(hiveRoot, parts)
  {
    PartsOf(op.keyPath, parts, []);
    assert [] + parts[0] == parts[0] && [parts[0]] + parts[1..] == parts;
    var filled := NonEmpty(parts);
    if filled != [] {
      UpperIff(filled[0], hiveRoot);
    }
  }

  // ------------------------------------------------------------------ the tree

  function Empty(): Key {
    Key(map[], map[])
  }

  function Find(key: Key, path: Path): Option<Key>
    decreases |path|
  {
    if path == [] then Some(key)
    else if path[0] in key.subkeys then Find(key.subkeys[path[0]], path[1..])
    else None
  }

  function ValueAt(key: Key, path: Path, name: Name): Option<RegValue> {
    match Find(key, path)
    case None => None
    case Some(k) => if name in k.values then Some(k.values[name]) else None
  }

  function Child(key: Key, name: Name): Key {
    if name in key.subkeys then key.subkeys[name] else Empty()
  }

  /** The tree with the keys of `path` created where they are missing and the last one's values replaced. */
  function WithValues(key: Key, path: Path, values: map<Name, RegValue>): Key
    decreases |path|
  {
    if path == [] then key.(values := values)
    else key.(subkeys := key.subkeys[path[0] := WithValues(Child(key, path[0]), path[1..], values)])
  }

  function ValuesAt(key: Key, path: Path): map<Name, RegValue> {
    match Find(key, path)
    case None => map[]
    case Some(k) => k.values
  }

  /** `get_or_create_key_mut` on its own. */
  function Created(key: Key, path: Path): Key {
    WithValues(key, path, ValuesAt(key, path))
  }

  function Inserted(key: Key, path: Path, name: Name, value: RegValue): Key {
    WithValues(key, path, ValuesAt(key, path)[name := value])
  }

  function Without<V>(m: map<Name, V>, name: Name): map<Name, V> {
    map n | n in m && n != name :: m[n]
  }

  function DeletedKey(key: Key, path: Path): Key
    requires path != []
    decreases |path|
  {
    if |path| == 1 then key.(subkeys := Without(key.subkeys, path[0]))
    else if path[0] !in key.subkeys then key
    else key.(subkeys := key.subkeys[path[0] := DeletedKey(key.subkeys[path[0]], path[1..])])
  }

  // ------------------------------------------------------------------ applying an operation

  datatype Applied = Applied(root: Key, error: Option<ApplyError>)

  /** What an operation makes of the values of its key. */
  function Changed(values: map<Name, RegValue>, op: AddRegOp): (map<Name, RegValue>, Option<ApplyError>) {
    if DelVal(op) then (Without(values, op.valueName), None)
    else if KeyOnly(op) || (NoClobber(op) && op.valueName in values) then (values, None)
    else if IsAppend(op) then
      if op.valueType != Mkhive.REG_MULTI_SZ then (values, Some(AppendUnsupported))
      else if op.valueName in values && values[op.valueName].valueType != Mkhive.REG_MULTI_SZ then
        (values, Some(AppendTarget))
      else
        var stored := if op.valueName in values then values[op.valueName].data else [];
        (values[op.valueName := Mkhive.RegValue(Mkhive.REG_MULTI_SZ, MultiSz.Append(stored, op.data))], None)
    else (values[op.valueName := Mkhive.RegValue(op.valueType, op.data)], None)
  }

  /** Whether the operation leaves a tree alone that does not have its key or value yet. */
  predicate Skipped(root: Key, path: Path, op: AddRegOp) {
    if DelVal(op) then Find(root, path).None?
    else !KeyOnly(op) && OverwriteOnly(op) && op.valueName !in ValuesAt(root, path)
  }

  function AfterApply(root: Key, hiveRoot: Name, op: AddRegOp): Applied {
    var path := Target(hiveRoot, op);
    if DelVal(op) && op.valueName == [] then Applied(if path == [] then root else DeletedKey(root, path), None)
    else if Skipped(root, path, op) then Applied(root, None)
    else
      var changed := Changed(ValuesAt(root, path), op);
      Applied(WithValues(root, path, changed.0), changed.1)
  }

  class KeyTree {
    const hiveRoot: Name
    var root: Key

    constructor (hiveRoot: Name)
      ensures this.hiveRoot == hiveRoot && root == Empty()
    {
      this.hiveRoot := hiveRoot;
      root := Empty();
    }

    /** Applies one operation; an operation that fails may still have created its key. */
    method Apply(op: AddRegOp) returns (error: Option<ApplyError>)
      modifies this
      ensures Applied(root, error) == AfterApply(old(root), hiveRoot, op)
    {
      var path := SplitPath(op);
      var existing := Find(root, path);
      MissingKey(root, path);
      if DelVal(op) {
        if op.valueName == [] {
          if path != [] {
            root := DeletedKey(root, path);
          }
        } else if existing.Some? {
          root := WithValues(root, path, Without(existing.value.values, op.valueName));
        }
        return None;
      }
      if KeyOnly(op) {
        root := Created(root, path);
        return None;
      }
      if OverwriteOnly(op) {
        if existing.None? {
          return None;
        }
        if op.valueName !in existing.value.values {
          return None;
        }
      }
      CreatedFind(root, path);
      root := Created(root, path);
      var values := ValuesAt(root, path);
      if NoClobber(op) && op.valueName in values {
        return None;
      }
      if IsAppend(op) {
        if op.valueType != Mkhive.REG_MULTI_SZ {
          return Some(AppendUnsupported);
        }
        var stored := [];
        if op.valueName in values {
          if values[op.valueName].valueType != Mkhive.REG_MULTI_SZ {
            return Some(AppendTarget);
          }
          stored := values[op.valueName].data;
        }
        var merged := MultiSz.AppendMultiSz(stored, op.data);
        Insert(path, op.valueName, Mkhive.RegValue(Mkhive.REG_MULTI_SZ, merged));
        CreatedInserted(old(root), path, op.valueName, Mkhive.RegValue(Mkhive.REG_MULTI_SZ, merged));
        return None;
      }
      Insert(path, op.valueName, Mkhive.RegValue(op.valueType, op.data));
      CreatedInserted(old(root), path, op.valueName, Mkhive.RegValue(op.valueType, op.data));
      return None;
    }

    method Insert(path: Path, name: Name, value: RegValue)
      modifies this
      ensures root == Inserted(old(root), path, name, value)
    {
      root := Inserted(root, path, name, value);
    }

    method SplitPath(op: AddRegOp) returns (path: Path)
      ensures path == Target(hiveRoot, op)
    {
      path := [];
      var cur: Name := [];
      for i := 0 to |op.keyPath|
        invariant path + Parts(op.keyPath[i..], cur) == Parts(op.keyPath, [])
      {
        assert op.keyPath[i..][1..] == op.keyPath[i + 1..];
        if op.keyPath[i] == 0x5C {
          path := path + if cur == [] then [] else [cur];
          cur := [];
        } else {
          cur := cur + [op.keyPath[i]];
        }
      }
      path := path + if cur == [] then [] else [cur];
      if path != [] && Upper(path[0]) == Upper(hiveRoot) {
        path := path[1..];
      }
    }
  }

  // ------------------------------------------------------------------ what each step keeps

  predicate IsPrefix(p: Path, q: Path) {
    |p| <= |q| && q[..|p|] == p
  }

  /** Replacing values at a path creates its keys and changes no other key. */
  lemma {:induction false} WithValuesFind(key: Key, path: Path, values: map<Name, RegValue>, q: Path)
    ensures var after := WithValues(key, path, values);
            && (Find(after, q).Some? <==> Find(key, q).Some? || IsPrefix(q, path))
            && ValuesAt(after, q) == if q == path then values else ValuesAt(key, q)
    decreases |path|
  {
    if path == [] || q == [] {
    } else {
      if q[0] == path[0] {
        WithValuesFind(Child(key, path[0]), path[1..], values, q[1..]);
        assert q == [q[0]] + q[1..] && path == [path[0]] + path[1..];
        if path[0] !in key.subkeys {
          FindEmpty(q[1..]);
        }
        assert IsPrefix(q, path) <==> IsPrefix(q[1..], path[1..]) by {
          if IsPrefix(q[1..], path[1..]) {
            assert path[..|q|] == [path[0]] + path[1..][..|q| - 1];
          }
          if IsPrefix(q, path) {
            assert path[1..][..|q| - 1] == path[..|q|][1..];
          }
        }
      }
    }
  }

  lemma FindEmpty(q: Path)
    ensures Find(Empty(), q).Some? <==> q == []
    ensures ValuesAt(Empty(), q) == map[]
  {
  }

  lemma CreatedFind(key: Key, path: Path)
    ensures Find(Created(key, path), path).Some? && ValuesAt(Created(key, path), path) == ValuesAt(key, path)
  {
    WithValuesFind(key, path, ValuesAt(key, path), path);
    assert IsPrefix(path, path);
  }

  lemma {:induction false} WithValuesTwice(key: Key, path: Path, a: map<Name, RegValue>, b: map<Name, RegValue>)
    ensures WithValues(WithValues(key, path, a), path, b) == WithValues(key, path, b)
    decreases |path|
  {
    if path == [] {
    } else {
      WithValuesTwice(Child(key, path[0]), path[1..], a, b);
    }
  }

  lemma CreatedInserted(key: Key, path: Path, name: Name, value: RegValue)
    ensures Inserted(Created(key, path), path, name, value) == Inserted(key, path, name, value)
  {
    CreatedFind(key, path);
    WithValuesTwice(key, path, ValuesAt(key, path), ValuesAt(key, path)[name := value]);
  }

  /** Deleting a key takes everything at or below it and nothing else. */
  lemma {:induction false} DeletedFind(key: Key, path: Path, q: Path)
    requires path != []
    ensures var after := DeletedKey(key, path);
            && (Find(after, q).Some? <==> Find(key, q).Some? && !IsPrefix(path, q))
            && (!IsPrefix(path, q) ==> ValuesAt(after, q) == ValuesAt(key, q))
    decreases |path|
  {
    if q == [] {
    } else {
      assert q == [q[0]] + q[1..] && path == [path[0]] + path[1..];
      if |path| > 1 && q[0] == path[0] && path[0] in key.subkeys {
        DeletedFind(key.subkeys[path[0]], path[1..], q[1..]);
        assert IsPrefix(path, q) <==> IsPrefix(path[1..], q[1..]) by {
          if IsPrefix(path[1..], q[1..]) {
            assert q[..|path|] == [q[0]] + q[1..][..|path| - 1];
          }
          if IsPrefix(path, q) {
            assert q[1..][..|path| - 1] == q[..|path|][1..];
          }
        }
      }
    }
  }

  // ------------------------------------------------------------------ results

  lemma ValueIs(key: Key, q: Path, name: Name)
    ensures ValueAt(key, q, name) == if name in ValuesAt(key, q) then Some(ValuesAt(key, q)[name]) else None
  {
  }

  /** No operation but the deletion of a key touches a value other than its own. */
  lemma OthersKept(root: Key, hiveRoot: Name, op: AddRegOp, parts: seq<Name>, q: Path, name: Name)
    requires Spells(op.keyPath, parts)
    requires !(q == Place(hiveRoot, parts) && name == op.valueName)
    requires Flag(op, 0x4) && op.valueName == [] ==> !IsPrefix(Place(hiveRoot, parts), q)
    ensures ValueAt(AfterApply(root, hiveRoot, op).root, q, name) == ValueAt(root, q, name)
  {
    hide Find, WithValues, DeletedKey, Target, ValueAt, ValuesAt;
    var path := Target(hiveRoot, op);
    TargetIs(hiveRoot, op, parts);
    ValueIs(root, q, name);
    ValueIs(AfterApply(root, hiveRoot, op).root, q, name);
    if DelVal(op) && op.valueName == [] {
      if path != [] {
        DeletedFind(root, path, q);
      }
    } else {
      WithValuesFind(root, path, Changed(ValuesAt(root, path), op).0, q);
    }
  }

  /** The value an operation is about, by its flags. */
  lemma OwnValue(root: Key, hiveRoot: Name, op: AddRegOp, parts: seq<Name>)
    requires Spells(op.keyPath, parts) && !(Flag(op, 0x4) && op.valueName == [])
    ensures var path := Place(hiveRoot, parts);
            var r := AfterApply(root, hiveRoot, op);
            var before, after := ValueAt(root, path, op.valueName), ValueAt(r.root, path, op.valueName);
            if Flag(op, 0x4) then after == None && r.error == None
            else if Flag(op, 0x10) || (Flag(op, 0x20) && before == None) || (Flag(op, 0x2) && before.Some?) then
              after == before && r.error == None
            else if !Flag(op, 0x8) then after == Some(Mkhive.RegValue(op.valueType, op.data)) && r.error == None
            else if op.valueType != 7 then after == before && r.error == Some(AppendUnsupported)
            else if before.Some? && before.value.valueType != 7 then after == before && r.error == Some(AppendTarget)
            else
              && after.Some? && after.value.valueType == 7 && r.error == None
              && MultiSz.Parse(after.value.data)
                 == MultiSz.Merge(if before.Some? then MultiSz.Parse(before.value.data) else [], MultiSz.Parse(op.data))
  {
    hide Find, WithValues, Target, ValueAt, ValuesAt, MultiSz.Append, MultiSz.Parse, MultiSz.Merge;
    var path := Target(hiveRoot, op);
    TargetIs(hiveRoot, op, parts);
    var values := ValuesAt(root, path);
    ValueIs(root, path, op.valueName);
    ValueIs(AfterApply(root, hiveRoot, op).root, path, op.valueName);
    WithValuesFind(root, path, Changed(values, op).0, path);
    MissingKey(root, path);
    MultiSz.AppendDecodes(if op.valueName in values then values[op.valueName].data else [], op.data);
    NothingParsed();
  }

  lemma NothingParsed()
    ensures MultiSz.Parse([]) == []
  {
  }

  /** The keys on the way to a key that exists exist as well. */
  lemma {:induction false} PrefixFound(key: Key, path: Path, q: Path)
    requires IsPrefix(q, path)
    ensures Find(key, path).Some? ==> Find(key, q).Some?
    decreases |path|
  {
    if q == [] {
    } else if path[0] in key.subkeys {
      assert path[1..][..|q| - 1] == q[1..];
      PrefixFound(key.subkeys[path[0]], path[1..], q[1..]);
    }
  }

  lemma MissingKey(key: Key, path: Path)
    ensures Find(key, path).None? ==> ValuesAt(key, path) == map[]
  {
  }

  /** Keys appear only on the way to the operation's own key, and go only by the deletion of a key. */
  lemma KeysAfter(root: Key, hiveRoot: Name, op: AddRegOp, parts: seq<Name>, q: Path)
    requires Spells(op.keyPath, parts)
    ensures var path := Place(hiveRoot, parts);
            var exempt := Flag(op, 0x10) || !Flag(op, 0x20) || ValueAt(root, path, op.valueName).Some?;
            var creates := !Flag(op, 0x4) && exempt;
            Find(AfterApply(root, hiveRoot, op).root, q).Some?
            <==> if Flag(op, 0x4) && op.valueName == [] then Find(root, q).Some? && !(path != [] && IsPrefix(path, q))
                 else Find(root, q).Some? || (creates && IsPrefix(q, path))
  {
    hide WithValues, DeletedKey, Target;
    var path := Target(hiveRoot, op);
    TargetIs(hiveRoot, op, parts);
    ValueIs(root, path, op.valueName);
    if IsPrefix(q, path) {
      PrefixFound(root, path, q);
    }
    hide Find, ValuesAt, ValueAt;
    if DelVal(op) && op.valueName == [] {
      if path != [] {
        DeletedFind(root, path, q);
      }
    } else {
      WithValuesFind(root, path, Changed(ValuesAt(root, path), op).0, q);
    }
  }

  lemma {:induction false} DeletedTwice(key: Key, path: Path)
    requires path != []
    ensures DeletedKey(DeletedKey(key, path), path) == DeletedKey(key, path)
    decreases |path|
  {
    if |path| == 1 {
      assert Without(Without(key.subkeys, path[0]), path[0]) == Without(key.subkeys, path[0]);
    } else if path[0] in key.subkeys {
      DeletedTwice(key.subkeys[path[0]], path[1..]);
    }
  }

  lemma ChangedTwice(values: map<Name, RegValue>, op: AddRegOp)
    ensures Changed(Changed(values, op).0, op) == Changed(values, op)
  {
    hide MultiSz.Append;
    MultiSz.AppendIdempotent(if op.valueName in values then values[op.valueName].data else [], op.data);
    var once := Changed(values, op).0;
    if DelVal(op) {
      assert Without(once, op.valueName) == once;
    } else if op.valueName in once {
      assert once[op.valueName := once[op.valueName]] == once;
    }
  }

  /** Applying any operation again changes nothing, whatever its flags and however it ended. */
  lemma ApplyTwice(root: Key, hiveRoot: Name, op: AddRegOp)
    ensures AfterApply(AfterApply(root, hiveRoot, op).root, hiveRoot, op) == AfterApply(root, hiveRoot, op)
  {
    hide Find, WithValues, DeletedKey, Target, ValuesAt, Changed;
    var path := Target(hiveRoot, op);
    if DelVal(op) && op.valueName == [] {
      if path != [] {
        DeletedTwice(root, path);
      }
    } else if !Skipped(root, path, op) {
      var values := ValuesAt(root, path);
      var changed := Changed(values, op).0;
      WithValuesFind(root, path, changed, path);
      assert IsPrefix(path, path);
      ChangedTwice(values, op);
      WithValuesTwice(root, path, changed, changed);
      if !DelVal(op) && op.valueName in values {
        KeptName(values, op);
      }
    }
  }

  /** An operation that was not skipped is not skipped the second time. */
  lemma KeptName(values: map<Name, RegValue>, op: AddRegOp)
    requires !DelVal(op) && op.valueName in values
    ensures op.valueName in Changed(values, op).0
  {
  }
}
