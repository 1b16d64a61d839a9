/** `SimplePageId`: a page named by (table id, page number). */
module PageIds {
  import opened Common
  import Strings

  /** The destructors `tableId` and `pgNo` are `getTableId` and `pageNumber`. */
  datatype SimplePageId = SimplePageId(tableId: Int32, pgNo: Int32)

  /** `SimplePageId.equals`: same table id and same page number. */
  predicate PageIdEquals(a: SimplePageId, b: SimplePageId)
  {
    a.tableId == b.tableId && a.pgNo == b.pgNo
  }

  /** `SimplePageId.hashCode`: `tableId * 37 + pgNo` in 32-bit arithmetic. */
  function HashCode(p: SimplePageId): (h: Int32)
    ensures (h as int - (p.tableId as int * 37 + p.pgNo as int)) % INT_MODULUS == 0
  {
    Wrap32(p.tableId as int * 37 + p.pgNo as int)
  }

  /** `SimplePageId.serialize`: the constructor's arguments, in order. */
  function Serialize(p: SimplePageId): (s: seq<Int32>)
    ensures |s| == 2 && SimplePageId(s[0], s[1]) == p
  {
    [p.tableId, p.pgNo]
  }

  /** `SimplePageId.toString`: "tableId-pgNo". */
  function ToString(p: SimplePageId): string
  {
    Strings.IntToString(p.tableId as int) + "-" + Strings.IntToString(p.pgNo as int)
  }

  /** `equals` is value equality, hence reflexive and symmetric, and equal ids hash equally. */
  lemma EqualsIsValueEquality(a: SimplePageId, b: SimplePageId)
    ensures PageIdEquals(a, b) <==> a == b
    ensures PageIdEquals(a, a)
    ensures PageIdEquals(a, b) == PageIdEquals(b, a)
    ensures PageIdEquals(a, b) ==> HashCode(a) == HashCode(b)
  {
  }

  /** Index of the first '-' in `s` at or after `from`, or `|s|` if there is none. */
  function FindDash(s: string, from: nat): (k: nat)
    requires from <= |s|
    ensures from <= k <= |s|
    ensures forall i :: from <= i < k ==> s[i] != '-'
    ensures k < |s| ==> s[k] == '-'
    decreases |s| - from
  {
    if from == |s| then |s| else if s[from] == '-' then from else FindDash(s, from + 1)
  }

  /** The rendering of an int has no '-' after its first character. */
  lemma NoDashAfterSign(x: int)
    ensures forall i :: 1 <= i < |Strings.IntToString(x)| ==> Strings.IntToString(x)[i] != '-'
  {
    Strings.IntToStringChars(x);
  }

  /** The first '-' after position 0 of "tableId-pgNo" is the separator. */
  lemma SeparatorPosition(p: SimplePageId)
    ensures var s := ToString(p); FindDash(s, 1) == |Strings.IntToString(p.tableId as int)|
  {
    var t := Strings.IntToString(p.tableId as int);
    var s := ToString(p);
    NoDashAfterSign(p.tableId as int);
    assert forall i :: 1 <= i < |t| ==> s[i] == t[i];
    assert s[|t|] == '-';
  }

  /** `toString` loses nothing: distinct page ids render differently. */
  lemma ToStringInjective(p: SimplePageId, q: SimplePageId)
    requires ToString(p) == ToString(q)
    ensures p == q
  {
    var s := ToString(p);
    var tp := Strings.IntToString(p.tableId as int);
    var tq := Strings.IntToString(q.tableId as int);
    var gp := Strings.IntToString(p.pgNo as int);
    var gq := Strings.IntToString(q.pgNo as int);
    SeparatorPosition(p);
    SeparatorPosition(q);
    assert |tp| == |tq|;
    assert tp == s[..|tp|];
    assert tq == ToString(q)[..|tq|];
    Strings.IntToStringInjective(p.tableId as int, q.tableId as int);
    assert gp == s[|tp| + 1..];
    assert gq == ToString(q)[|tq| + 1..];
    Strings.IntToStringInjective(p.pgNo as int, q.pgNo as int);
  }
}
