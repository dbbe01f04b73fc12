/** strstr on sequences. */
module Search {
  import opened Words

  predicate Occurs<T(==)>(text: seq<T>, pattern: seq<T>, i: int) {
    0 <= i <= |text| - |pattern| && text[i..i + |pattern|] == pattern
  }

  /** The first occurrence at or after from. */
  function Find<T(==)>(text: seq<T>, pattern: seq<T>, from: nat): (r: Option<nat>)
    requires from <= |text|
    ensures r.Some? ==> from <= r.value && r.value + |pattern| <= |text|
    decreases |text| - from
  {
    if Occurs(text, pattern, from) then Some(from)
    else if from == |text| then None
    else Find(text, pattern, from + 1)
  }

  lemma {:induction false} FindIsFirst<T>(text: seq<T>, pattern: seq<T>, from: nat)
    requires from <= |text|
    ensures var r := Find(text, pattern, from);
      && (r.Some? ==> Occurs(text, pattern, r.value))
      && (forall i | from <= i && (r.Some? ==> i < r.value) :: !Occurs(text, pattern, i))
    decreases |text| - from
  {
    if !Occurs(text, pattern, from) && from < |text| {
      FindIsFirst(text, pattern, from + 1);
    }
  }

  /** What occurs after position n occurs in the rest of the text from there. */
  lemma {:induction false} OccursInRest<T>(text: seq<T>, pattern: seq<T>, n: nat, i: nat)
    requires n <= |text|
    ensures Occurs(text[n..], pattern, i) <==> Occurs(text, pattern, n + i)
  {
    if n + i + |pattern| <= |text| {
      assert text[n..][i..i + |pattern|] == text[n + i..n + i + |pattern|];
    }
  }
}
