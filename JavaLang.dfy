/** The few pieces of the Java platform the adapter relies on: 32-bit `int`
    arithmetic, exceptions as results, and the `String` operations `indexOf`,
    `substring` and `split`. Indices count characters of a Dafny `string`,
    which are Unicode scalar values; Java counts UTF-16 code units, so the two
    agree on text without supplementary characters, such as the ASCII
    durations YouTube reports. */
module JavaLang {

  /** The unchecked exceptions the modelled code can raise. */
  datatype Exception =
    | StringIndexOutOfBounds   // String.substring with a bad range
    | ArrayIndexOutOfBounds    // indexing past the end of a String[]
    | IndexOutOfBounds         // List.get with an index outside the list

  /** A Java computation either returns a value or throws. */
  datatype Result<T> = Success(value: T) | Throws(exception: Exception)

  /** A reference that may be `null`. */
  datatype Option<T> = None | Some(value: T)

  const INT_MIN: int := -0x8000_0000
  const INT_MAX: int := 0x7FFF_FFFF

  /** Java's `int`. */
  newtype int32 = x: int | INT_MIN <= x <= INT_MAX

  /** `x++` on a Java `int`: two's-complement wrap-around at `INT_MAX`. */
  function Increment(x: int32): (r: int32)
    ensures (r as int - x as int) % 0x1_0000_0000 == 1
    ensures x as int < INT_MAX ==> r as int == x as int + 1
  {
    if x as int == INT_MAX then INT_MIN as int32 else x + 1
  }

  /** `s.indexOf(c)`: the index of the first occurrence of `c`, or -1. */
  function IndexOf(s: string, c: char): (r: int)
    ensures -1 <= r < |s|
    ensures r == -1 <==> c !in s
    ensures 0 <= r ==> s[r] == c && forall k :: 0 <= k < r ==> s[k] != c
    decreases |s|
  {
    if s == [] then -1
    else if s[0] == c then 0
    else
      var k := IndexOf(s[1..], c);
      if k == -1 then -1 else k + 1
  }

  /** The first occurrence of `c` in `a + b`, when `a` has none, is found in `b`. */
  lemma {:induction false} IndexOfAfter(a: string, b: string, c: char)
    requires c !in a
    ensures IndexOf(a + b, c) == if c in b then |a| + IndexOf(b, c) else -1
    decreases |a|
  {
    if a != [] {
      assert (a + b)[0] == a[0];
      assert (a + b)[1..] == a[1..] + b;
      IndexOfAfter(a[1..], b, c);
    } else {
      assert a + b == b;
    }
  }

  /** `s.substring(begin, end)`: the characters from `begin` up to, not
      including, `end`; it throws unless `0 <= begin <= end <= s.length()`. */
  function Substring(s: string, begin: int, end: int): (r: Result<string>)
    ensures r.Success? <==> 0 <= begin <= end <= |s|
    ensures r.Success? ==> r.value == s[begin..end]
    ensures r.Throws? ==> r.exception == StringIndexOutOfBounds
  {
    if 0 <= begin <= end <= |s| then Success(s[begin..end]) else Throws(StringIndexOutOfBounds)
  }

  /** The pieces are joined back with `sep` between neighbours. */
  function Join(pieces: seq<string>, sep: char): (r: string)
  {
    if |pieces| == 0 then ""
    else if |pieces| == 1 then pieces[0]
    else pieces[0] + [sep] + Join(pieces[1..], sep)
  }

  /** All the pieces of `s` between occurrences of `sep`, empty ones included:
      one more piece than there are separators. */
  function Pieces(s: string, sep: char): (r: seq<string>)
    ensures |r| >= 1
    decreases |s|
  {
    var i := IndexOf(s, sep);
    if i < 0 then [s] else [s[..i]] + Pieces(s[i + 1..], sep)
  }

  /** No piece contains the separator. */
  lemma {:induction false} PiecesAvoidSeparator(s: string, sep: char)
    ensures forall k :: 0 <= k < |Pieces(s, sep)| ==> sep !in Pieces(s, sep)[k]
    decreases |s|
  {
    var i := IndexOf(s, sep);
    if i >= 0 {
      var tail := Pieces(s[i + 1..], sep);
      PiecesAvoidSeparator(s[i + 1..], sep);
      assert Pieces(s, sep) == [s[..i]] + tail;
      assert sep !in s[..i] by {
        forall k | 0 <= k < i ensures s[..i][k] != sep { assert s[..i][k] == s[k]; }
      }
      ConsAvoids(s[..i], tail, sep);
    } else {
      assert Pieces(s, sep) == [s];
    }
  }

  lemma {:induction false} ConsAvoids(head: string, tail: seq<string>, sep: char)
    requires sep !in head
    requires forall k :: 0 <= k < |tail| ==> sep !in tail[k]
    ensures forall k :: 0 <= k < |[head] + tail| ==> sep !in ([head] + tail)[k]
  {
    var r := [head] + tail;
    forall k | 0 <= k < |r| ensures sep !in r[k] {
      if k > 0 { assert r[k] == tail[k - 1]; }
    }
  }

  lemma {:induction false} JoinCons(head: string, tail: seq<string>, sep: char)
    requires |tail| >= 1
    ensures Join([head] + tail, sep) == head + [sep] + Join(tail, sep)
  {
    assert ([head] + tail)[1..] == tail;
  }

  lemma {:induction false} SplitAround(s: string, i: int)
    requires 0 <= i < |s|
    ensures s == s[..i] + [s[i]] + s[i + 1..]
  {
  }

  /** Joining the pieces with `sep` gives back `s`. */
  lemma {:induction false} JoinOfPieces(s: string, sep: char)
    ensures Join(Pieces(s, sep), sep) == s
    decreases |s|
  {
    var i := IndexOf(s, sep);
    if i >= 0 {
      var tail := Pieces(s[i + 1..], sep);
      assert Pieces(s, sep) == [s[..i]] + tail;
      JoinCons(s[..i], tail, sep);
      JoinOfPieces(s[i + 1..], sep);
      SplitAround(s, i);
    } else {
      assert Pieces(s, sep) == [s];
    }
  }

  /** `Pieces` is the inverse of `Join` on pieces free of the separator. */
  lemma {:induction false} PiecesOfJoin(pieces: seq<string>, sep: char)
    requires |pieces| >= 1
    requires forall i :: 0 <= i < |pieces| ==> sep !in pieces[i]
    ensures Pieces(Join(pieces, sep), sep) == pieces
    decreases |pieces|
  {
    var head := pieces[0];
    if |pieces| == 1 {
      assert Join(pieces, sep) == head;
      assert Pieces(head, sep) == [head];
    } else {
      var tail := pieces[1..];
      assert pieces == [head] + tail;
      JoinCons(head, tail, sep);
      PiecesCons(head, Join(tail, sep), sep);
      PiecesOfJoin(tail, sep);
    }
  }

  /** A separator-free head followed by the separator is split off as the first piece. */
  lemma {:induction false} PiecesCons(head: string, rest: string, sep: char)
    requires sep !in head
    ensures Pieces(head + [sep] + rest, sep) == [head] + Pieces(rest, sep)
  {
    var s := head + [sep] + rest;
    assert s == head + ([sep] + rest);
    assert IndexOf([sep] + rest, sep) == 0;
    IndexOfAfter(head, [sep] + rest, sep);
    assert s[..|head|] == head;
    assert s[|head| + 1..] == rest;
  }

  /** The trailing empty strings are removed, as `String.split` does with a
      zero limit. */
  function DropTrailingEmpty(ps: seq<string>): (r: seq<string>)
    ensures |r| <= |ps| && r == ps[..|r|]
    ensures r == [] || r[|r| - 1] != ""
    ensures forall i :: |r| <= i < |ps| ==> ps[i] == ""
    decreases |ps|
  {
    if ps == [] then []
    else if ps[|ps| - 1] == "" then DropTrailingEmpty(ps[..|ps| - 1])
    else ps
  }

  /** `s.split(sep)` for a separator that is a single ordinary character:
      with no occurrence the result is `s` alone; otherwise the pieces,
      leading empty ones kept and trailing empty ones dropped. */
  function Split(s: string, sep: char): (r: seq<string>)
    ensures sep !in s ==> r == [s]
    ensures forall k :: 0 <= k < |r| ==> sep !in r[k]
  {
    if sep !in s then [s]
    else
      PiecesAvoidSeparator(s, sep);
      DropTrailingEmpty(Pieces(s, sep))
  }

  /** Every string of `ps` is empty. */
  predicate AllEmpty(ps: seq<string>)
    decreases |ps|
  {
    ps == [] || (ps[0] == "" && AllEmpty(ps[1..]))
  }

  /** `t` holds nothing but `sep`. */
  predicate OnlySeparators(t: string, sep: char)
    decreases |t|
  {
    t == [] || (t[0] == sep && OnlySeparators(t[1..], sep))
  }

  lemma {:induction false} AllEmptyCons(head: string, tail: seq<string>)
    ensures AllEmpty([head] + tail) <==> head == "" && AllEmpty(tail)
  {
    assert ([head] + tail)[1..] == tail;
  }

  /** `AllEmpty` of a suffix, pointwise. */
  lemma {:induction false} AllEmptyFrom(ps: seq<string>, k: nat)
    requires k <= |ps|
    ensures AllEmpty(ps[k..]) <==> forall j :: k <= j < |ps| ==> ps[j] == ""
    decreases |ps| - k
  {
    if k < |ps| {
      AllEmptyFrom(ps, k + 1);
      assert ps[k..][0] == ps[k];
      assert ps[k..][1..] == ps[k + 1..];
    } else {
      assert ps[k..] == [];
    }
  }

  /** The inductive step of `PiecesAllEmpty`: `t` has a separator. */
  lemma {:induction false} PiecesAllEmptyStep(t: string, sep: char)
    requires sep in t
    requires var rest := t[IndexOf(t, sep) + 1..];
      AllEmpty(Pieces(rest, sep)) <==> OnlySeparators(rest, sep)
    ensures AllEmpty(Pieces(t, sep)) <==> OnlySeparators(t, sep)
  {
    var i := IndexOf(t, sep);
    var rest := t[i + 1..];
    assert Pieces(t, sep) == [t[..i]] + Pieces(rest, sep);
    AllEmptyCons(t[..i], Pieces(rest, sep));
    if i == 0 {
      assert t[1..] == rest;
    } else {
      assert t[0] != sep;
      assert |t[..i]| > 0;
    }
  }

  /** The base case of `PiecesAllEmpty`: `t` has no separator. */
  lemma {:induction false} PiecesAllEmptyBase(t: string, sep: char)
    requires sep !in t
    ensures AllEmpty(Pieces(t, sep)) <==> OnlySeparators(t, sep)
  {
    assert Pieces(t, sep) == [t] + [];
    AllEmptyCons(t, []);
    if t != [] {
      assert t[0] != sep;
    }
  }

  /** The pieces of `t` are all empty exactly when `t` holds nothing but separators. */
  lemma {:induction false} PiecesAllEmpty(t: string, sep: char)
    ensures AllEmpty(Pieces(t, sep)) <==> OnlySeparators(t, sep)
    decreases |t|
  {
    if sep in t {
      PiecesAllEmpty(t[IndexOf(t, sep) + 1..], sep);
      PiecesAllEmptyStep(t, sep);
    } else {
      PiecesAllEmptyBase(t, sep);
    }
  }

  /** Dropping the trailing empty strings keeps more than `k` of them exactly
      when some string from index `k` on is not empty. */
  lemma {:induction false} DropTrailingEmptyLength(ps: seq<string>, k: nat)
    requires k <= |ps|
    ensures |DropTrailingEmpty(ps)| > k <==> !AllEmpty(ps[k..])
  {
    var r := DropTrailingEmpty(ps);
    AllEmptyFrom(ps, k);
    if |r| > k {
      assert ps[|r| - 1] == r[|r| - 1];
    }
  }

  /** `s.split(sep)[0]` exists unless `s` is made of separators only, and is
      the text before the first separator. */
  lemma {:induction false} SplitFirst(s: string, sep: char)
    requires sep in s
    ensures |Split(s, sep)| >= 1 <==> !OnlySeparators(s, sep)
    ensures |Split(s, sep)| >= 1 ==> Split(s, sep)[0] == s[..IndexOf(s, sep)]
  {
    var ps := Pieces(s, sep);
    PiecesAllEmpty(s, sep);
    DropTrailingEmptyLength(ps, 0);
    assert ps[0..] == ps;
  }

  /** The first piece of `t` is the text before its first separator, or all of `t`. */
  lemma {:induction false} PiecesHead(t: string, sep: char)
    ensures Pieces(t, sep)[0] == if sep in t then t[..IndexOf(t, sep)] else t
  {
  }

  /** `s.split(sep)` is the pieces of `s` with the trailing empty ones
      dropped; the pieces are the text before the first separator followed by
      the pieces of the rest. */
  lemma {:induction false} SplitPieces(s: string, sep: char)
    requires sep in s
    ensures var i := IndexOf(s, sep);
      && Split(s, sep) == DropTrailingEmpty(Pieces(s, sep))
      && Pieces(s, sep)[1..] == Pieces(s[i + 1..], sep)
  {
    var i := IndexOf(s, sep);
    var ps := Pieces(s, sep);
    assert ps == [s[..i]] + Pieces(s[i + 1..], sep);
    assert ps[1..] == Pieces(s[i + 1..], sep);
  }

  /** `s.split(sep)[1]` exists exactly when something other than a separator
      follows the first separator. */
  lemma {:induction false} SplitSecondExists(s: string, sep: char)
    requires sep in s
    ensures |Split(s, sep)| >= 2 <==> !OnlySeparators(s[IndexOf(s, sep) + 1..], sep)
  {
    var rest := s[IndexOf(s, sep) + 1..];
    SplitPieces(s, sep);
    PiecesAllEmpty(rest, sep);
    SecondPieceKept(Split(s, sep), Pieces(s, sep), Pieces(rest, sep), rest, sep);
  }

  /** The step of `SplitSecondExists` that only concerns dropping the
      trailing empty pieces. */
  lemma {:induction false} SecondPieceKept(split: seq<string>, ps: seq<string>, tail: seq<string>, rest: string, sep: char)
    requires |ps| >= 1 && split == DropTrailingEmpty(ps) && ps[1..] == tail
    requires AllEmpty(tail) <==> OnlySeparators(rest, sep)
    ensures |split| >= 2 <==> !OnlySeparators(rest, sep)
  {
    DropTrailingEmptyLength(ps, 1);
  }

  /** `s.split(sep)[1]`, when it exists, is the text between the first
      separator and the next one, or the end of `s`. */
  lemma {:induction false} SplitSecondValue(s: string, sep: char)
    requires sep in s && |Split(s, sep)| >= 2
    ensures var rest := s[IndexOf(s, sep) + 1..];
      Split(s, sep)[1] == if sep in rest then rest[..IndexOf(rest, sep)] else rest
  {
    var rest := s[IndexOf(s, sep) + 1..];
    var ps := Pieces(s, sep);
    SplitPieces(s, sep);
    PiecesHead(rest, sep);
    var r := DropTrailingEmpty(ps);
    assert r[1] == ps[1] == ps[1..][0];
  }

  /** `s.split(sep)[1]` exists exactly when something other than a separator
      follows the first separator, and is the text between the first
      separator and the next one, or the end of `s`. */
  lemma {:induction false} SplitSecond(s: string, sep: char)
    requires sep in s
    ensures var rest := s[IndexOf(s, sep) + 1..];
      && (|Split(s, sep)| >= 2 <==> !OnlySeparators(rest, sep))
      && (|Split(s, sep)| >= 2 ==>
            Split(s, sep)[1] == if sep in rest then rest[..IndexOf(rest, sep)] else rest)
  {
    SplitSecondExists(s, sep);
    if |Split(s, sep)| >= 2 {
      SplitSecondValue(s, sep);
    }
  }
}
