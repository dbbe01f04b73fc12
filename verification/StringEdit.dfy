/** str_remove and str_replace on NUL-terminated strings in buffers. */
module StringEdit {
  import opened Words
  import opened Buffers
  import opened Sequences
  import opened Search

  const NUL := '\0'

  /**
   The parts of the text from p on that are left when the occurrences found from left to
   right, without overlap, are cut out.
   */
  function Kept(text: string, sub: string, p: nat): (r: seq<string>)
    requires sub != [] && p <= |text|
    ensures r != []
    decreases |text| - p
  {
    match Find(text, sub, p)
    case None => [text[p..]]
    case Some(i) => [text[p..i]] + Kept(text, sub, i + |sub|)
  }

  /** Leftmost non-overlapping deletion; the empty pattern deletes nothing. */
  function Removed(text: string, sub: string): string {
    if sub == [] then text else Flatten(Kept(text, sub, 0))
  }

  function Replaced(text: string, needle: string, replacement: string): string
    requires needle != []
  {
    Join(Kept(text, needle, 0), replacement)
  }

  lemma {:induction false} JoinedPast(text: string, sub: string, separator: string, p: nat, i: nat)
    requires sub != [] && p <= |text| && Find(text, sub, p) == Some(i)
    ensures Join(Kept(text, sub, p), separator) == text[p..i] + separator + Join(Kept(text, sub, i + |sub|), separator)
  {
  }

  lemma {:induction false} JoinedLast(text: string, sub: string, separator: string, p: nat)
    requires sub != [] && p <= |text| && Find(text, sub, p) == None
    ensures Join(Kept(text, sub, p), separator) == text[p..]
  {
  }

  /** The kept parts, put back together with the pattern, are the text. */
  lemma {:induction false} KeptIsWhole(text: string, sub: string, p: nat)
    requires sub != [] && p <= |text|
    ensures Join(Kept(text, sub, p), sub) == text[p..]
    decreases |text| - p
  {
    match Find(text, sub, p) {
      case None => JoinedLast(text, sub, sub, p);
      case Some(i) =>
        KeptIsWhole(text, sub, i + |sub|);
        JoinedPast(text, sub, sub, p, i);
        ThroughOccurrence(text, sub, p, i);
    }
  }

  lemma {:induction false} ThroughOccurrence(text: string, sub: string, p: nat, i: nat)
    requires p <= |text| && Find(text, sub, p) == Some(i)
    ensures text[p..] == text[p..i] + sub + text[i + |sub|..]
  {
    FindIsFirst(text, sub, p);
    Across(text, p, i, i + |sub|);
  }

  lemma {:induction false} Across(text: string, p: nat, i: nat, next: nat)
    requires p <= i <= next <= |text|
    ensures text[p..] == text[p..i] + text[i..next] + text[next..]
  {
  }

  /** No kept part holds an occurrence. */
  lemma {:induction false} KeptHoldsNone(text: string, sub: string, p: nat, k: nat, j: int)
    requires sub != [] && p <= |text| && k < |Kept(text, sub, p)|
    ensures !Occurs(Kept(text, sub, p)[k], sub, j)
    decreases |text| - p
  {
    FindIsFirst(text, sub, p);
    var found := Find(text, sub, p);
    if found.Some? && k > 0 {
      KeptHoldsNone(text, sub, found.value + |sub|, k - 1, j);
      assert Kept(text, sub, p)[k] == Kept(text, sub, found.value + |sub|)[k - 1];
    } else {
      var end := if found.Some? then found.value else |text|;
      assert k == 0 && Kept(text, sub, p)[0] == text[p..end];
      NoneInPart(text, sub, p, end, j);
    }
  }

  lemma NoneInPart(text: string, sub: string, p: nat, end: nat, j: int)
    requires p <= end <= |text| && sub != []
    requires forall i | p <= i && i + |sub| <= end :: !Occurs(text, sub, i)
    ensures !Occurs(text[p..end], sub, j)
  {
    if 0 <= j && j + |sub| <= end - p {
      var part := text[p..end];
      assert forall x | j <= x < j + |sub| :: part[x] == text[p + x];
      assert part[j..j + |sub|] == text[p + j..p + j + |sub|];
      assert !Occurs(text, sub, p + j);
    }
  }

  lemma {:induction false} FoundIs(text: string, sub: string, p: nat, i: nat)
    requires p <= i && Occurs(text, sub, i) && forall j | p <= j < i :: !Occurs(text, sub, j)
    ensures Find(text, sub, p) == Some(i)
  {
    FindIsFirst(text, sub, p);
  }

  /** From p on the leftmost occurrence is replaced, and what follows it is edited in the same way. */
  lemma {:induction false} LeftmostIsEdited(text: string, sub: string, glue: string, p: nat, i: nat)
    requires sub != [] && p <= i && Occurs(text, sub, i) && forall j | p <= j < i :: !Occurs(text, sub, j)
    ensures Join(Kept(text, sub, p), glue) == text[p..i] + glue + Join(Kept(text, sub, i + |sub|), glue)
  {
    FoundIs(text, sub, p, i);
    JoinedPast(text, sub, glue, p, i);
  }

  /** Without an occurrence the text stays. */
  lemma {:induction false} NothingIsEdited(text: string, sub: string, glue: string, p: nat)
    requires sub != [] && p <= |text| && forall j | p <= j <= |text| :: !Occurs(text, sub, j)
    ensures Join(Kept(text, sub, p), glue) == text[p..]
  {
    FindIsFirst(text, sub, p);
    JoinedLast(text, sub, glue, p);
  }

  /** Replacing begins at the start of the text, and an empty pattern removes nothing. */
  lemma {:induction false} EditsFromStart(text: string, sub: string, replacement: string)
    requires sub != []
    ensures Replaced(text, sub, replacement) == Join(Kept(text, sub, 0), replacement) && Removed(text, []) == text
  {
  }

  /** Replacing by nothing is removing. */
  lemma ReplaceByNothing(text: string, sub: string)
    requires sub != []
    ensures Replaced(text, sub, []) == Removed(text, sub)
  {
    JoinWithNothing(Kept(text, sub, 0));
  }

  /** Removing makes nothing longer. */
  lemma {:induction false} RemovedIsShorter(text: string, sub: string, p: nat)
    requires sub != [] && p <= |text|
    ensures |Join(Kept(text, sub, p), [])| <= |text| - p
    decreases |text| - p
  {
    match Find(text, sub, p) {
      case None => JoinedLast(text, sub, [], p);
      case Some(i) =>
        JoinedPast(text, sub, [], p, i);
        RemovedIsShorter(text, sub, i + |sub|);
    }
  }

  /** On a text of at most 1023 characters, replacing by nothing stays inside both buffers and gives what removing gives. */
  lemma {:induction false} ReplaceAgreesWithRemove(text: string, sub: string, room: nat)
    requires sub != [] && |text| < 1024 && |text| < room
    ensures CopyingOf(text, sub, [], room) == Whole && Replaced(text, sub, []) == Removed(text, sub)
  {
    RemovedIsShorter(text, sub, 0);
    ReplaceByNothing(text, sub);
  }

  lemma {:induction false} JoinedHasNoNul(text: string, sub: string, p: nat, separator: string)
    requires sub != [] && p <= |text| && NUL !in text && NUL !in separator
    ensures NUL !in Join(Kept(text, sub, p), separator)
    decreases |text| - p
  {
    match Find(text, sub, p)
    case None =>
      JoinedLast(text, sub, separator, p);
      PartHasNoNul(text, p, |text|);
    case Some(i) =>
      JoinedHasNoNul(text, sub, i + |sub|, separator);
      JoinedPast(text, sub, separator, p, i);
      PartHasNoNul(text, p, i);
      ThreeHaveNoNul(text[p..i], separator, Join(Kept(text, sub, i + |sub|), separator));
  }

  lemma {:induction false} PartHasNoNul(text: string, p: nat, i: nat)
    requires p <= i <= |text| && NUL !in text
    ensures NUL !in text[p..i]
  {
  }

  lemma {:induction false} ThreeHaveNoNul(a: string, b: string, c: string)
    requires NUL !in a && NUL !in b && NUL !in c
    ensures NUL !in a + b + c
  {
  }

  /** The search looks at nothing before its start. */
  lemma {:induction false} FindSeesRest(a: string, b: string, sub: string, p: nat)
    requires |a| == |b| && p <= |a| && a[p..] == b[p..]
    ensures Find(a, sub, p) == Find(b, sub, p)
    decreases |a| - p
  {
    assert forall k | p <= k < |a| :: a[k] == a[p..][k - p] && b[k] == b[p..][k - p];
    if p + |sub| <= |a| {
      assert a[p..p + |sub|] == b[p..p + |sub|];
    }
    if p < |a| {
      assert a[p + 1..] == a[p..][1..] && b[p + 1..] == b[p..][1..];
      FindSeesRest(a, b, sub, p + 1);
    }
  }

  method StrLen(str: array<char>) returns (n: nat)
    requires NUL in str[..]
    ensures n < str.Length && str[n] == NUL && str[..n] == CString(str[..], NUL)
  {
    n := 0;
    while str[n] != NUL
      invariant n < str.Length && NUL !in str[..n]
      decreases str.Length - n
    {
      assert exists k | n <= k < str.Length :: str[k] == NUL;
      n := n + 1;
    }
    CStringOf(str[..n], NUL, str[n + 1..]);
    assert str[..] == str[..n] + [NUL] + str[n + 1..];
  }

  /** The text from p on, and its NUL at n, are still in place. */
  ghost predicate Unread(str: array<char>, p: nat, n: nat, text: string)
    reads str
  {
    p <= n == |text| < str.Length && str[n] == NUL && forall k | p <= k < n :: str[k] == text[k]
  }

  /**
   The search for the pattern in the text, and what must still follow when the text has
   been read up to p.
   */
  datatype Plan = Plan(next: nat -> Option<nat>, rest: nat -> string)

  ghost predicate Searches(plan: Plan, text: string, sub: string) {
    forall p: nat {:trigger Find(text, sub, p)} | p <= |text| :: plan.next(p) == Find(text, sub, p)
  }

  ghost predicate FollowsAt(plan: Plan, text: string, len: nat, glue: string, p: nat)
    requires p <= |text|
  {
    match plan.next(p)
    case None => plan.rest(p) == text[p..]
    case Some(i) => p <= i && i + len <= |text| && plan.rest(p) == text[p..i] + glue + plan.rest(i + len)
  }

  ghost predicate Follows(plan: Plan, text: string, len: nat, glue: string) {
    forall p: nat {:trigger plan.next(p)} | p <= |text| :: FollowsAt(plan, text, len, glue, p)
  }

  function PlanOf(text: string, needle: string, replacement: string): Plan
    requires needle != []
  {
    Plan((p: nat) => if p <= |text| then Find(text, needle, p) else None,
         (p: nat) => if p <= |text| then Join(Kept(text, needle, p), replacement) else [])
  }

  lemma {:induction false} PlanFollowsAt(plan: Plan, text: string, needle: string, replacement: string, p: nat, found: Option<nat>)
    requires needle != [] && p <= |text| && plan.next(p) == found == Find(text, needle, p)
    requires plan.rest(p) == Join(Kept(text, needle, p), replacement)
    requires found.Some? ==> plan.rest(found.value + |needle|) == Join(Kept(text, needle, found.value + |needle|), replacement)
    ensures FollowsAt(plan, text, |needle|, replacement, p)
  {
    match found {
      case None => JoinedLast(text, needle, replacement, p);
      case Some(i) => JoinedPast(text, needle, replacement, p, i);
    }
  }

  lemma {:induction false} PlanFor(text: string, needle: string, replacement: string) returns (plan: Plan)
    requires needle != []
    ensures Searches(plan, text, needle) && Follows(plan, text, |needle|, replacement)
    ensures plan.rest(0) == Replaced(text, needle, replacement)
  {
    plan := PlanOf(text, needle, replacement);
    PlanFollows(plan, text, needle, replacement);
  }

  lemma {:induction false} PlanFollows(plan: Plan, text: string, needle: string, replacement: string)
    requires needle != [] && plan == PlanOf(text, needle, replacement)
    ensures Follows(plan, text, |needle|, replacement)
  {
    forall p: nat | p <= |text| ensures FollowsAt(plan, text, |needle|, replacement, p) {
      PlanFollowsAt(plan, text, needle, replacement, p, Find(text, needle, p));
    }
  }

  /** strstr on a buffer whose text is intact from p up to its end n. */
  method StrStr(str: array<char>, p: nat, n: nat, sub: string, ghost text: string, ghost plan: Plan) returns (r: Option<nat>)
    requires Unread(str, p, n, text) && Searches(plan, text, sub)
    ensures r == plan.next(p)
  {
    var now := str[..n];
    assert now[p..] == text[p..];
    FindSeesRest(now, text, sub, p);
    r := Find(now, sub, p);
  }

  /** str_remove. The string in the buffer becomes the deletion; the write cursor stays behind the unread text. */
  method StrRemove(str: array<char>, sub: string)
    requires NUL in str[..] && NUL !in sub
    modifies str
    ensures NUL in str[..] && CString(str[..], NUL) == Removed(CString(old(str[..]), NUL), sub)
  {
    var n := StrLen(str);
    if sub == [] {
      return;
    }
    ghost var text := str[..n];
    ReplaceByNothing(text, sub);
    ghost var plan := PlanFor(text, sub, []);
    RemoveAll(str, n, sub, text, plan);
    JoinedHasNoNul(text, sub, 0, []);
    CStringOf(plan.rest(0), NUL, str[|plan.rest(0)| + 1..]);
  }

  method RemoveAll(str: array<char>, n: nat, sub: string, ghost text: string, ghost plan: Plan)
    requires sub != [] && Unread(str, 0, n, text) && Searches(plan, text, sub) && Follows(plan, text, |sub|, [])
    modifies str
    ensures |plan.rest(0)| < str.Length && str[..] == plan.rest(0) + [NUL] + str[|plan.rest(0)| + 1..]
  {
    var r := StrStr(str, 0, n, sub, text, plan);
    if r.Some? {
      RemoveFound(str, r.value, n, sub, text, plan);
    } else {
      assert str[..n + 1] == text[0..] + [NUL];
      FinishText(str[..], n + 1, plan.rest(0));
    }
  }

  /** The part of str_remove after the first occurrence has been found. */
  method RemoveFound(str: array<char>, first: nat, n: nat, sub: string, ghost text: string, ghost plan: Plan)
    requires sub != [] && Unread(str, 0, n, text) && Searches(plan, text, sub) && Follows(plan, text, |sub|, [])
    requires plan.next(0) == Some(first)
    modifies str
    ensures |plan.rest(0)| < str.Length && str[..] == plan.rest(0) + [NUL] + str[|plan.rest(0)| + 1..]
  {
    var q: nat, p: nat := first, first + |sub|;
    assert str[..q] == text[0..q];
    var r := StrStr(str, p, n, sub, text, plan);
    while r.Some?
      invariant q <= p <= n && Unread(str, p, n, text)
      invariant str[..q] + plan.rest(p) == plan.rest(0)
      invariant r == plan.next(p)
      decreases n - p, r.Some?
    {
      q := RemoveTurn(str, q, p, r.value, n, |sub|, text, plan.rest(r.value + |sub|), plan.rest(0));
      p := r.value + |sub|;
      r := StrStr(str, p, n, sub, text, plan);
    }
    RemoveRest(str, q, p, n, text, plan.rest(0));
  }

  /** Move the bytes from p up to r down to q, one by one; the gap keeps them apart. */
  method MoveDown(str: array<char>, q: nat, p: nat, r: nat) returns (end: nat)
    requires q <= p <= r <= str.Length
    modifies str
    ensures end == q + (r - p)
    ensures str[..end] == old(str[..q]) + old(str[p..r])
    ensures forall k | r <= k < str.Length :: str[k] == old(str[k])
  {
    end := q;
    var from := p;
    while from < r
      invariant p <= from <= r && end == q + (from - p)
      invariant forall k | 0 <= k < q :: str[k] == old(str[k])
      invariant forall k | q <= k < end :: str[k] == old(str[p..r])[k - q]
      invariant forall k | from <= k < str.Length :: str[k] == old(str[k])
    {
      str[end] := str[from];
      end, from := end + 1, from + 1;
    }
  }

  /** The bytes up to the next occurrence are moved down; what comes after it is still to follow. */
  method RemoveTurn(str: array<char>, q: nat, p: nat, r: nat, n: nat, len: nat,
                    ghost text: string, ghost after: string, ghost result: string)
      returns (end: nat)
    requires q <= p <= r && r + len <= n && Unread(str, p, n, text)
    requires str[..q] + (text[p..r] + [] + after) == result
    modifies str
    ensures end <= r + len && Unread(str, r + len, n, text)
    ensures str[..end] + after == result
  {
    assert str[p..r] == text[p..r];
    end := MoveDown(str, q, p, r);
  }

  /** The rest, with its NUL, is moved down. */
  method RemoveRest(str: array<char>, q: nat, p: nat, n: nat, ghost text: string, ghost result: string)
    requires q <= p && Unread(str, p, n, text) && str[..q] + text[p..] == result
    modifies str
    ensures |result| < str.Length && str[..] == result + [NUL] + str[|result| + 1..]
  {
    assert str[p..n + 1] == text[p..] + [NUL];
    var end := MoveDown(str, q, p, n + 1);
    FinishText(str[..], end, result);
  }

  lemma FinishText(s: seq<char>, q: nat, text: string)
    requires q <= |s| && s[..q] == text + [NUL]
    ensures s == text + [NUL] + s[q..] && NUL in s
  {
  }

  const BUFFER_SIZE: nat := 1024

  /** How str_replace goes: the copies stay inside their buffers, or the first one to write past an end is reached. */
  datatype Copying = Whole | BufferOverrun | TargetOverrun

  /** With its NUL the result takes one byte more than its length in each of the two buffers. */
  function CopyingOf(text: string, needle: string, replacement: string, room: nat): Copying {
    if needle == [] || |Replaced(text, needle, replacement)| + 1 > BUFFER_SIZE then BufferOverrun
    else if |Replaced(text, needle, replacement)| + 1 > room then TargetOverrun
    else Whole
  }

  /** The buffer of 1024 bytes is overrun first, then the target; a result just fits with one byte to spare for its NUL. */
  lemma {:induction false} OverrunIff(text: string, needle: string, replacement: string, room: nat)
    requires needle != []
    ensures var size := |Replaced(text, needle, replacement)|;
      && (CopyingOf(text, needle, replacement, room) == BufferOverrun <==> size >= 1024)
      && (CopyingOf(text, needle, replacement, room) == TargetOverrun <==> room <= size < 1024)
    ensures CopyingOf(text, [], replacement, room) == BufferOverrun
  {
  }

  /** An empty needle is found where the search begins, so the loop does not advance. */
  lemma {:induction false} EmptyNeedleStays(text: string, p: nat)
    requires p <= |text|
    ensures Find(text, [], p) == Some(p)
  {
  }

  /** str_replace, up to the first write past an end; it loops for ever when needle and replacement are both empty. */
  method StrReplace(target: array<char>, needle: string, replacement: string) returns (copying: Copying)
    requires NUL in target[..] && NUL !in needle && NUL !in replacement && (needle != [] || replacement != [])
    modifies target
    ensures copying == CopyingOf(CString(old(target[..]), NUL), needle, replacement, target.Length)
    ensures copying == Whole ==>
      NUL in target[..] && CString(target[..], NUL) == Replaced(CString(old(target[..]), NUL), needle, replacement)
    ensures copying != Whole ==> target[..] == old(target[..])
    ensures replacement == [] && |CString(old(target[..]), NUL)| < 1024 ==>
      copying == Whole && NUL in target[..] && CString(target[..], NUL) == Removed(CString(old(target[..]), NUL), needle)
  {
    var n := StrLen(target);
    ghost var text := target[..n];
    if replacement == [] && n < BUFFER_SIZE {
      ReplaceAgreesWithRemove(text, needle, target.Length);
    }
    var buffer := new char[BUFFER_SIZE](_ => NUL);
    ghost var plan := SearchPlan(text, needle, replacement);
    copying := ReplaceAll(buffer, target, n, needle, replacement, text, plan);
    if copying == Whole {
      ghost var result := Replaced(text, needle, replacement);
      JoinedHasNoNul(text, needle, 0, replacement);
      CStringOf(result, NUL, target[|result| + 1..]);
    }
  }

  ghost predicate Guides(plan: Plan, text: string, needle: string, replacement: string) {
    && Searches(plan, text, needle)
    && if needle == [] then NeverEnds(plan) else Follows(plan, text, |needle|, replacement)
  }

  ghost predicate NeverEnds(plan: Plan) {
    forall p: nat :: plan.next(p) == Some(p)
  }

  /** The plan of the search, for any needle; only with a non-empty one does the text get shorter on the way. */
  lemma {:induction false} SearchPlan(text: string, needle: string, replacement: string) returns (plan: Plan)
    ensures Guides(plan, text, needle, replacement)
    ensures needle != [] ==> plan.rest(0) == Replaced(text, needle, replacement)
  {
    if needle == [] {
      plan := Plan((p: nat) => Some(p), (p: nat) => []);
      forall p: nat | p <= |text| ensures plan.next(p) == Find(text, needle, p) {
        EmptyNeedleStays(text, p);
      }
    } else {
      plan := PlanFor(text, needle, replacement);
    }
  }

  method ReplaceAll(buffer: array<char>, target: array<char>, n: nat, needle: string, replacement: string,
                    ghost text: string, ghost plan: Plan)
      returns (copying: Copying)
    requires buffer != target && buffer.Length == BUFFER_SIZE && Unread(target, 0, n, text)
    requires needle != [] || replacement != []
    requires Guides(plan, text, needle, replacement)
    requires needle != [] ==> plan.rest(0) == Replaced(text, needle, replacement)
    modifies buffer, target
    ensures copying == CopyingOf(text, needle, replacement, target.Length)
    ensures copying == Whole ==> target[..] == plan.rest(0) + [NUL] + target[|plan.rest(0)| + 1..]
    ensures copying != Whole ==> target[..] == old(target[..])
  {
    var fits, insert, tmp := ReplaceLoop(buffer, target, n, needle, replacement, text, plan);
    if !fits {
      return BufferOverrun;
    }
    copying := ReplaceRest(buffer, insert, target, tmp, n, text, plan.rest(0));
  }

  /** The loop over the occurrences, up to a copy that does not fit. */
  method ReplaceLoop(buffer: array<char>, target: array<char>, n: nat, needle: string, replacement: string,
                     ghost text: string, ghost plan: Plan)
      returns (fits: bool, insert: nat, tmp: nat)
    requires buffer != target && Unread(target, 0, n, text) && (needle != [] || replacement != [])
    requires Guides(plan, text, needle, replacement)
    modifies buffer
    ensures !fits ==> needle == [] || |plan.rest(0)| > buffer.Length
    ensures fits ==>
      needle != [] && insert <= buffer.Length && tmp <= n && buffer[..insert] + text[tmp..] == plan.rest(0)
  {
    insert, tmp := 0, 0;
    var p := StrStr(target, tmp, n, needle, text, plan);
    while p.Some?
      invariant insert <= buffer.Length && Unread(target, tmp, n, text)
      invariant SoFar(buffer[..insert], plan, needle, tmp)
      invariant p == plan.next(tmp)
      decreases n - tmp + (buffer.Length - insert), p.Some?
    {
      fits, insert, tmp := ReplaceFound(buffer, insert, target, tmp, p.value, n, needle, replacement, text, plan);
      if !fits {
        return;
      }
      p := StrStr(target, tmp, n, needle, text, plan);
    }
    fits := true;
    LoopEnds(plan, text, needle, replacement, tmp);
  }

  /** One turn of the loop, and where the next search begins. */
  method ReplaceFound(buffer: array<char>, at: nat, target: array<char>, tmp: nat, p: nat, n: nat,
                      needle: string, replacement: string, ghost text: string, ghost plan: Plan)
      returns (fits: bool, insert: nat, next: nat)
    requires buffer != target && Unread(target, tmp, n, text) && at <= buffer.Length && SoFar(buffer[..at], plan, needle, tmp)
    requires Guides(plan, text, needle, replacement) && plan.next(tmp) == Some(p) && (needle != [] || replacement != [])
    modifies buffer
    ensures !fits ==> needle == [] || |plan.rest(0)| > buffer.Length
    ensures fits ==> at <= insert <= buffer.Length && tmp <= next <= n && SoFar(buffer[..insert], plan, needle, next)
    ensures fits ==> Unread(target, next, n, text) && (tmp < next || at < insert)
  {
    TurnStep(plan, text, needle, replacement, tmp, p);
    assert p <= n;
    fits, insert := ReplaceOnce(buffer, at, target, tmp, p, n, needle, replacement, text, plan);
    next := p + |needle|;
  }

  lemma {:induction false} LoopEnds(plan: Plan, text: string, needle: string, replacement: string, tmp: nat)
    requires tmp <= |text| && plan.next(tmp) == None
    requires Guides(plan, text, needle, replacement)
    ensures needle != [] && plan.rest(tmp) == text[tmp..]
  {
    if needle != [] {
      assert FollowsAt(plan, text, |needle|, replacement, tmp);
    }
  }

  /** What has been appended, and what must still follow, are the result. */
  ghost predicate SoFar(done: string, plan: Plan, needle: string, tmp: nat) {
    needle != [] ==> done + plan.rest(tmp) == plan.rest(0)
  }

  /** One turn of the loop. */
  method ReplaceOnce(buffer: array<char>, at: nat, target: array<char>, tmp: nat, p: nat, n: nat,
                     needle: string, replacement: string, ghost text: string, ghost plan: Plan)
      returns (fits: bool, insert: nat)
    requires buffer != target && Unread(target, tmp, n, text) && tmp <= p <= n && at <= buffer.Length
    requires SoFar(buffer[..at], plan, needle, tmp)
    requires needle != [] ==> plan.rest(tmp) == text[tmp..p] + replacement + plan.rest(p + |needle|)
    modifies buffer
    ensures insert == at + (p - tmp) + |replacement| && fits == (insert <= buffer.Length)
    ensures fits ==> SoFar(buffer[..insert], plan, needle, p + |needle|)
    ensures needle != [] ==> insert <= |plan.rest(0)|
  {
    ghost var before := buffer[..at];
    fits, insert := ReplaceTurn(buffer, at, target, tmp, p, n, replacement, text);
    if fits && needle != [] {
      assert buffer[..insert] + plan.rest(p + |needle|) == before + (text[tmp..p] + replacement + plan.rest(p + |needle|));
    }
  }

  /** What follows an occurrence, and where the next search begins. */
  lemma {:induction false} TurnStep(plan: Plan, text: string, needle: string, replacement: string, tmp: nat, p: nat)
    requires tmp <= |text| && Guides(plan, text, needle, replacement) && plan.next(tmp) == Some(p)
    ensures tmp <= p && p + |needle| <= |text| && (needle == [] ==> p == tmp)
    ensures needle != [] ==> plan.rest(tmp) == text[tmp..p] + replacement + plan.rest(p + |needle|)
  {
    assert plan.next(tmp) == Find(text, needle, tmp);
    if needle == [] {
      EmptyNeedleStays(text, tmp);
    } else {
      assert FollowsAt(plan, text, |needle|, replacement, tmp);
    }
  }

  /** The text up to the next occurrence and the replacement are appended, if they fit. */
  method ReplaceTurn(buffer: array<char>, at: nat, target: array<char>, tmp: nat, p: nat, n: nat, replacement: string,
                     ghost text: string)
      returns (fits: bool, insert: nat)
    requires buffer != target && Unread(target, tmp, n, text) && tmp <= p <= n && at <= buffer.Length
    modifies buffer
    ensures insert == at + (p - tmp) + |replacement| && fits == (insert <= buffer.Length)
    ensures fits ==> buffer[..insert] == old(buffer[..at]) + text[tmp..p] + replacement
  {
    assert target[tmp..p] == text[tmp..p];
    insert := at + (p - tmp) + |replacement|;
    if at + (p - tmp) > buffer.Length {
      return false, insert;
    }
    CopyTo(buffer, at, target[tmp..p]);
    if insert > buffer.Length {
      return false, insert;
    }
    CopyTo(buffer, at + (p - tmp), replacement);
    fits := true;
  }

  /** The rest of the text, with its NUL, is appended, and the whole is copied back. */
  method ReplaceRest(buffer: array<char>, at: nat, target: array<char>, tmp: nat, n: nat,
                     ghost text: string, ghost result: string)
      returns (copying: Copying)
    requires buffer != target && Unread(target, tmp, n, text) && at <= buffer.Length
    requires buffer[..at] + text[tmp..] == result
    modifies buffer, target
    ensures copying == if |result| + 1 > buffer.Length then BufferOverrun
      else if |result| + 1 > target.Length then TargetOverrun else Whole
    ensures copying == Whole ==> target[..] == result + [NUL] + target[|result| + 1..]
    ensures copying != Whole ==> target[..] == old(target[..])
  {
    assert target[tmp..n] == text[tmp..];
    var end := at + (n - tmp) + 1;
    if end > buffer.Length {
      return BufferOverrun;
    }
    CopyTo(buffer, at, target[tmp..n] + [NUL]);
    assert buffer[..end] == result + [NUL];
    if end > target.Length {
      return TargetOverrun;
    }
    CopyTo(target, 0, buffer[..end]);
    FinishText(target[..], end, result);
    copying := Whole;
  }
}
