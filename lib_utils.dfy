/** `createArray` of src/lib/utils.ts: the integers from `min` to `max`. */
module LibUtils {

  /** `Array.from(Array(max + 1 - min)).map((_, idx) => idx + min)`. A negative length
      makes `Array` throw; that call is excluded by the precondition. */
  function CreateArray(min: int, max: int): (r: seq<int>)
    requires max + 1 - min >= 0
    ensures |r| == max + 1 - min
    ensures |r| > 0 ==> r[0] == min
    ensures forall i :: 0 < i < |r| ==> r[i] == r[i - 1] + 1
  {
    seq(max + 1 - min, idx => idx + min)
  }

  /** Element `idx` is `min + idx`. */
  lemma CreateArrayAt(min: int, max: int, idx: int)
    requires max + 1 - min >= 0
    requires 0 <= idx < max + 1 - min
    ensures CreateArray(min, max)[idx] == min + idx
  {
  }

  /** The result holds exactly the integers of [min, max], each once, in ascending order;
      so `createArray({min: level + 1, max: 6})` names exactly the levels deeper than
      `level`, and none when `level` is 6. */
  lemma CreateArrayMembers(min: int, max: int)
    requires max + 1 - min >= 0
    ensures forall x :: x in CreateArray(min, max) <==> min <= x <= max
    ensures forall i, j :: 0 <= i < j < max + 1 - min ==> CreateArray(min, max)[i] < CreateArray(min, max)[j]
  {
    var r := CreateArray(min, max);
    forall i | 0 <= i < |r|
      ensures r[i] == min + i
    {
      CreateArrayAt(min, max, i);
    }
    forall x | min <= x <= max
      ensures x in r
    {
      assert r[x - min] == x;
    }
  }
}
