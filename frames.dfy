/** A pandas DataFrame with an index column, read-only after construction: the
    rows in file order, each paired with its index key. */
module Frames {
  import opened Seqs

  /** No index key occurs twice. `df.loc[k]` returns a single row only then;
      on a repeated key it returns a whole frame, which the record
      constructors cannot take. */
  ghost predicate UniqueKeys<K(!new), R(!new)>(frame: seq<(K, R)>) {
    forall i, j :: 0 <= i < j < |frame| ==> frame[i].0 != frame[j].0
  }

  /** `df.loc[k]`, with `KeyError` turned into None. */
  function Loc<K(==,!new), R(!new)>(frame: seq<(K, R)>, k: K): (r: Option<R>)
    requires UniqueKeys(frame)
    ensures r.None? <==> forall i :: 0 <= i < |frame| ==> frame[i].0 != k
    ensures forall i :: 0 <= i < |frame| && frame[i].0 == k ==> r == Some(frame[i].1)
  {
    match First(frame, (row: (K, R)) => row.0 == k)
    case None => None
    case Some(i) => Some(frame[i].1)
  }
}
