/** Sequences of sequences put together. */
module Sequences {
  function Flatten<T>(parts: seq<seq<T>>): seq<T> {
    if parts == [] then [] else parts[0] + Flatten(parts[1..])
  }

  lemma {:induction false} FlattenSnoc<T>(parts: seq<seq<T>>, last: seq<T>)
    ensures Flatten(parts + [last]) == Flatten(parts) + last
  {
    if parts == [] {
      assert (parts + [last])[1..] == [];
    } else {
      assert (parts + [last])[1..] == parts[1..] + [last];
      FlattenSnoc(parts[1..], last);
    }
  }

  lemma {:induction false} FlattenMember<T>(parts: seq<seq<T>>, x: T)
    ensures x in Flatten(parts) <==> exists i | 0 <= i < |parts| :: x in parts[i]
  {
    if parts != [] {
      FlattenMember(parts[1..], x);
      assert forall i | 1 <= i < |parts| :: parts[i] == parts[1..][i - 1];
    }
  }

  /** The parts with a separator between them. */
  function Join<T>(parts: seq<seq<T>>, separator: seq<T>): seq<T>
    requires parts != []
  {
    if |parts| == 1 then parts[0] else parts[0] + separator + Join(parts[1..], separator)
  }

  /** Nothing between the parts. */
  lemma {:induction false} JoinWithNothing<T>(parts: seq<seq<T>>)
    requires parts != []
    ensures Join(parts, []) == Flatten(parts)
  {
    if |parts| == 1 {
      assert Flatten(parts) == parts[0] + Flatten([]);
    } else {
      JoinWithNothing(parts[1..]);
      assert parts[0] + [] == parts[0];
    }
  }
}
