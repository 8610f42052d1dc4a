/** reorderFolders: the folder list is split into the fixed folders and the
    ones the user may drag; one draggable folder moves and the fixed ones
    are put back in front. */
module FolderOrder {
  import opened JsArrays
  import opened Records

  predicate IsFixed(name: string) {
    name in DRAG_DISABLED
  }

  /** foldersList.filter(name => dragDisabled.includes(name) == fixed). */
  function FoldersWhere(list: seq<string>, fixed: bool): (r: seq<string>)
    ensures forall n :: n in r <==> n in list && IsFixed(n) == fixed
  {
    if list == [] then []
    else (if IsFixed(list[0]) == fixed then [list[0]] else []) + FoldersWhere(list[1..], fixed)
  }

  /** The draggable folders after the move: the one at destIndex taken out
      and put back before position srcIndex (read as slice reads it). */
  function MovedBlock(list: seq<string>, destIndex: int, srcIndex: int): seq<string>
    requires 0 <= destIndex < |FoldersWhere(list, false)|
  {
    var orderable := FoldersWhere(list, false);
    var remaining := RemoveAt(orderable, destIndex);
    SliceTo(remaining, srcIndex) + [orderable[destIndex]] + SliceFrom(remaining, srcIndex)
  }

  /** The list reorderFolders(destIndex, srcIndex) assigns to foldersList:
      the fixed folders first, then the moved draggable block. */
  function Reordered(list: seq<string>, destIndex: int, srcIndex: int): seq<string>
    requires 0 <= destIndex < |FoldersWhere(list, false)|
  {
    FoldersWhere(list, true) + MovedBlock(list, destIndex, srcIndex)
  }

  lemma {:induction false} FoldersWhereConcat(a: seq<string>, b: seq<string>, fixed: bool)
    ensures FoldersWhere(a + b, fixed) == FoldersWhere(a, fixed) + FoldersWhere(b, fixed)
  {
    if a == [] {
      assert a + b == b;
    } else {
      assert (a + b)[0] == a[0];
      assert (a + b)[1..] == a[1..] + b;
      FoldersWhereConcat(a[1..], b, fixed);
    }
  }

  lemma {:induction false} FoldersWhereUniform(s: seq<string>, fixed: bool)
    requires forall n :: n in s ==> IsFixed(n) == fixed
    ensures FoldersWhere(s, fixed) == s
    ensures FoldersWhere(s, !fixed) == []
  {
    if s != [] {
      assert s[0] in s;
      FoldersWhereUniform(s[1..], fixed);
      assert s == [s[0]] + s[1..];
    }
  }

  lemma {:induction false} FoldersWhereSplits(list: seq<string>)
    ensures multiset(FoldersWhere(list, true)) + multiset(FoldersWhere(list, false)) == multiset(list)
  {
    if list != [] {
      FoldersWhereSplits(list[1..]);
      assert list == [list[0]] + list[1..];
    }
  }

  /** The moved block is a permutation of the draggable folders. */
  lemma MovedBlockPermutes(list: seq<string>, destIndex: int, srcIndex: int)
    requires 0 <= destIndex < |FoldersWhere(list, false)|
    ensures multiset(MovedBlock(list, destIndex, srcIndex)) == multiset(FoldersWhere(list, false))
    ensures forall n :: n in MovedBlock(list, destIndex, srcIndex) ==> !IsFixed(n)
  {
    var orderable := FoldersWhere(list, false);
    var remaining := RemoveAt(orderable, destIndex);
    SliceInsertMultiset(remaining, srcIndex, orderable[destIndex]);
    var block := MovedBlock(list, destIndex, srcIndex);
    forall n | n in block ensures !IsFixed(n) {
      assert n in multiset(block);
      assert n in multiset(orderable);
    }
  }

  /** The fixed folders keep their relative order and come first. */
  lemma ReorderedKeepsFixed(list: seq<string>, destIndex: int, srcIndex: int)
    requires 0 <= destIndex < |FoldersWhere(list, false)|
    ensures var r := Reordered(list, destIndex, srcIndex);
      var fixed := FoldersWhere(list, true);
      && r[..|fixed|] == fixed
      && FoldersWhere(r, true) == fixed
      && (forall i :: 0 <= i < |r| ==> (IsFixed(r[i]) <==> i < |fixed|))
  {
    var r := Reordered(list, destIndex, srcIndex);
    var fixed := FoldersWhere(list, true);
    var block := MovedBlock(list, destIndex, srcIndex);
    MovedBlockPermutes(list, destIndex, srcIndex);
    FoldersWhereUniform(fixed, true);
    FoldersWhereUniform(block, false);
    FoldersWhereConcat(fixed, block, true);
    assert FoldersWhere(r, true) == fixed + [];
    forall i | 0 <= i < |r| ensures IsFixed(r[i]) <==> i < |fixed| {
      if i < |fixed| {
        assert r[i] == fixed[i] && fixed[i] in fixed;
      } else {
        assert r[i] == block[i - |fixed|] && block[i - |fixed|] in block;
      }
    }
  }

  /** The draggable folders of the new list are the moved block. */
  lemma ReorderedMovesOne(list: seq<string>, destIndex: int, srcIndex: int)
    requires 0 <= destIndex < |FoldersWhere(list, false)|
    ensures var orderable := FoldersWhere(list, false);
      var remaining := RemoveAt(orderable, destIndex);
      FoldersWhere(Reordered(list, destIndex, srcIndex), false)
        == SliceTo(remaining, srcIndex) + [orderable[destIndex]] + SliceFrom(remaining, srcIndex)
  {
    var fixed := FoldersWhere(list, true);
    var block := MovedBlock(list, destIndex, srcIndex);
    MovedBlockPermutes(list, destIndex, srcIndex);
    FoldersWhereUniform(fixed, true);
    FoldersWhereUniform(block, false);
    FoldersWhereConcat(fixed, block, false);
    assert [] + block == block;
  }

  /** The new list is a permutation of the old one. */
  lemma ReorderedPermutes(list: seq<string>, destIndex: int, srcIndex: int)
    requires 0 <= destIndex < |FoldersWhere(list, false)|
    ensures multiset(Reordered(list, destIndex, srcIndex)) == multiset(list)
  {
    MovedBlockPermutes(list, destIndex, srcIndex);
    FoldersWhereSplits(list);
  }
}
