/** Lists whose members are all different. */
module Lists {

  ghost predicate NoDup<T>(s: seq<T>) {
    forall i, j :: 0 <= i < j < |s| ==> s[i] != s[j]
  }

  /** The list with the first occurrence of a member taken out. */
  function Without<T(==)>(s: seq<T>, e: T): (r: seq<T>)
    ensures |r| == if e in s then |s| - 1 else |s|
    ensures forall x :: x in r ==> x in s
    ensures forall x :: x in s && x != e ==> x in r
  {
    if s == [] then [] else if s[0] == e then assert s == [e] + s[1..]; s[1..] else
      assert s == [s[0]] + s[1..];
      [s[0]] + Without(s[1..], e)
  }

  lemma {:induction false} WithoutNoDup<T>(s: seq<T>, e: T)
    requires NoDup(s)
    ensures NoDup(Without(s, e)) && e !in Without(s, e)
  {
    if s != [] && s[0] != e {
      WithoutNoDup(s[1..], e);
      NoDupCons(s[0], Without(s[1..], e));
    }
  }

  lemma NoDupCons<T>(e: T, s: seq<T>)
    requires NoDup(s) && e !in s
    ensures NoDup([e] + s)
  {
  }
}
