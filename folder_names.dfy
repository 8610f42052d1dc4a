/** addNewFolder's default name: "New folder N", N one more than the largest
    number written anywhere in the existing folder names. */
module FolderNames {
  import opened Options
  import opened JsStrings

  function Max(a: nat, b: nat): nat {
    if a < b then b else a
  }

  /** Math.max over the numbers of one name, or 0 when it has none (the
      -Infinity Math.max gives for no arguments never beats the 0 that
      addNewFolder starts from). */
  function MaxOf(runs: seq<nat>): (m: nat)
    ensures forall r :: r in runs ==> r <= m
    ensures m == 0 || m in runs
  {
    if runs == [] then 0
    else
      assert forall r :: r in runs ==> r == runs[0] || r in runs[1..];
      Max(runs[0], MaxOf(runs[1..]))
  }

  /** The highest number addNewFolder finds in the names of list. */
  function HighestFolderNumber(list: seq<string>): (m: nat)
    ensures forall i, r :: 0 <= i < |list| && r in DigitRuns(list[i]) ==> r <= m
    ensures m == 0 || exists i :: 0 <= i < |list| && m in DigitRuns(list[i])
  {
    if list == [] then 0
    else
      var last := |list| - 1;
      var m := Max(HighestFolderNumber(list[..last]), MaxOf(DigitRuns(list[last])));
      assert forall i :: 0 <= i < last ==> list[..last][i] == list[i];
      m
  }

  /** The forEach of addNewFolder: one Math.max per listed name, folded
      into the running highest number. */
  method HighestNumberIn(list: seq<string>) returns (highest: nat)
    ensures highest == HighestFolderNumber(list)
  {
    highest := 0;
    var i := 0;
    while i < |list|
      invariant 0 <= i <= |list|
      invariant highest == HighestFolderNumber(list[..i])
    {
      assert list[..i + 1][..i] == list[..i];
      highest := Max(highest, MaxOf(DigitRuns(list[i])));
      i := i + 1;
    }
    assert list[..i] == list;
  }

  /** "New folder " followed by the number as a template string prints it. */
  function NewFolderName(list: seq<string>): string {
    "New folder " + Decimal(HighestFolderNumber(list) + 1)
  }

  /** `name || \`New folder ${highest + 1}\``: an absent or empty name is
      replaced by the synthesised one. */
  function FolderNameFor(name: Option<string>, list: seq<string>): (r: string)
    ensures Truthy(name) ==> r == name.value
    ensures !Truthy(name) ==> r == NewFolderName(list)
  {
    Or(name, NewFolderName(list))
  }

  /** The numbers in "New folder N" are just N. */
  lemma NewFolderNameRuns(n: nat)
    ensures DigitRuns("New folder " + Decimal(n)) == [n]
  {
    var p := "New folder ";
    assert forall i :: 0 <= i < |p| ==> !IsDigit(p[i]);
    DigitRunsAfterText(p, Decimal(n));
    DigitRunsOfNumeral(Decimal(n));
    DecimalValue(n);
  }

  /** The synthesised name is not the name of any folder already listed. */
  lemma NewFolderNameIsFresh(list: seq<string>)
    ensures NewFolderName(list) !in list
  {
    var m := HighestFolderNumber(list);
    var name := NewFolderName(list);
    NewFolderNameRuns(m + 1);
    forall i | 0 <= i < |list| ensures list[i] != name {
      assert m + 1 !in DigitRuns(list[i]);
    }
  }

  /** With "New folder 3" and "Favorites" listed, the next folder is
      "New folder 4". */
  lemma NewFolderNameExample()
    ensures NewFolderName(["New folder 3", "Favorites"]) == "New folder 4"
  {
    var list := ["New folder 3", "Favorites"];
    assert NewFolderName(list) == "New folder " + Decimal(4) by {
      ExampleHighest();
    }
    assert Decimal(4) == ['4'];
  }

  lemma ExampleHighest()
    ensures HighestFolderNumber(["New folder 3", "Favorites"]) == 3
  {
    ExampleRuns();
    HighestOfTwo("New folder 3", "Favorites");
    assert MaxOf([3]) == 3;
    assert MaxOf([]) == 0;
  }

  lemma HighestOfTwo(a: string, b: string)
    ensures HighestFolderNumber([a, b]) == Max(MaxOf(DigitRuns(a)), MaxOf(DigitRuns(b)))
  {
    assert [a, b][..1] == [a];
    assert [a][..0] == [];
  }

  lemma ExampleRuns()
    ensures DigitRuns("New folder 3") == [3]
    ensures DigitRuns("Favorites") == []
  {
    NewFolderNameRuns(3);
    assert Decimal(3) == "3";
    assert "New folder 3" == "New folder " + "3";
    var f := "Favorites";
    assert forall i :: 0 <= i < |f| ==> !IsDigit(f[i]);
    DigitRunsOfText(f);
  }
}
