/** Deleting the first occurrence of an element, as deleting an iptables rule does. */
module Lists {

  function DropFirst<T(==)>(s: seq<T>, x: T): seq<T>
  {
    if s == [] then [] else if s[0] == x then s[1..] else [s[0]] + DropFirst(s[1..], x)
  }

  lemma {:induction false} DropFirstCounts<T>(s: seq<T>, x: T)
    ensures multiset(DropFirst(s, x)) == multiset(s) - multiset{x}
  {
    if s != [] {
      assert s == [s[0]] + s[1..];
      if s[0] != x { DropFirstCounts(s[1..], x); }
    }
  }

  lemma {:induction false} DropFirstKeeps<T>(s: seq<T>, x: T, y: T)
    requires y != x
    ensures y in DropFirst(s, x) <==> y in s
  {
    if s != [] {
      assert s == [s[0]] + s[1..];
      if s[0] != x { DropFirstKeeps(s[1..], x, y); }
    }
  }

  lemma {:induction false} DropFirstLeft<T>(s: seq<T>, rest: seq<T>, x: T)
    requires x in s
    ensures DropFirst(s + rest, x) == DropFirst(s, x) + rest
  {
    hide DropFirst;
    var h, t := s[0], s[1..];
    DropFirstOf(h, t, x);
    DropFirstOf(h, t + rest, x);
    assert s == [h] + t && s + rest == [h] + (t + rest);
    if h != x {
      DropFirstLeft(t, rest, x);
    }
  }

  lemma {:induction false} DropFirstRight<T>(s: seq<T>, rest: seq<T>, x: T)
    requires x !in s
    ensures DropFirst(s + rest, x) == s + DropFirst(rest, x)
  {
    hide DropFirst;
    if s == [] {
      assert s + rest == rest;
    } else {
      var h, t := s[0], s[1..];
      DropFirstRight(t, rest, x);
      DropFirstOf(h, t + rest, x);
      assert s == [h] + t && s + rest == [h] + (t + rest);
    }
  }

  lemma DropFirstJoin<T>(s: seq<T>, rest: seq<T>, x: T)
    ensures DropFirst(s + rest, x) == if x in s then DropFirst(s, x) + rest else s + DropFirst(rest, x)
  {
    hide DropFirst;
    if x in s { DropFirstLeft(s, rest, x); } else { DropFirstRight(s, rest, x); }
  }

  lemma DropFirstOf<T>(h: T, t: seq<T>, x: T)
    ensures DropFirst([h] + t, x) == if h == x then t else [h] + DropFirst(t, x)
  {
    assert ([h] + t)[1..] == t;
  }

  lemma {:induction false} DropFirstAbsent<T>(s: seq<T>, x: T)
    requires x !in s
    ensures DropFirst(s, x) == s
  {
    if s != [] {
      DropFirstAbsent(s[1..], x);
      assert s == [s[0]] + s[1..];
    }
  }
}
