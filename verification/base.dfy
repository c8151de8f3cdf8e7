/** Shared vocabulary of the node-graph model: the pin role and icon enums,
    opaque 32-bit floats, Kotlin's nullable results, and the list removal
    that `MutableList.remove(element)` performs. */
module Base {

  /** The role of a pin (`InputOutput` in the repository). */
  datatype InputOutput = Input | Output | None

  /** The icon a pin is drawn with (`PinType`); only the members the core names. */
  datatype Icon = Square | NoIcon | Flow | RoundSquare | OtherIcon(ordinal: nat)

  /** A 32-bit float kept as its bit pattern: the core copies floats, never computes on them. */
  datatype Float = Float(bits: int)

  /** `Float.MIN_VALUE` (bit pattern 0x00000001), the "unset" position marker. */
  const MinValue: Float := Float(1)

  /** `-1f` (bit pattern 0xBF800000), the position of the node sentinel. */
  const MinusOne: Float := Float(0xBF80_0000)

  /** A Kotlin nullable result `T?`. */
  datatype Nullable<T> = Null | NonNull(value: T)

  /** Wraps an integer into Kotlin's 32-bit `Int` range. */
  function ToInt32(x: int): (r: int)
    ensures -0x8000_0000 <= r < 0x8000_0000
    ensures (r - x) % 0x1_0000_0000 == 0
  {
    (x + 0x8000_0000) % 0x1_0000_0000 - 0x8000_0000
  }

  /** All elements of `s` except the copies of `x`, in order. */
  function Without(s: seq<int>, x: int): (r: seq<int>)
    ensures x !in r
    ensures |r| <= |s|
  {
    if |s| == 0 then []
    else
      assert s == [s[0]] + s[1..];
      if s[0] == x then Without(s[1..], x)
      else [s[0]] + Without(s[1..], x)
  }

  /** `Without` keeps every other element as often as it was there. */
  lemma {:induction false} WithoutKeeps(s: seq<int>, x: int, y: int)
    requires y != x
    ensures multiset(Without(s, x))[y] == multiset(s)[y]
  {
    if |s| > 0 {
      assert s == [s[0]] + s[1..];
      WithoutKeeps(s[1..], x, y);
    }
  }

  /** `Without` distributes over concatenation. */
  lemma {:induction false} WithoutConcat(a: seq<int>, b: seq<int>, x: int)
    ensures Without(a + b, x) == Without(a, x) + Without(b, x)
  {
    if |a| > 0 {
      assert (a + b)[1..] == a[1..] + b;
      WithoutConcat(a[1..], b, x);
    } else {
      assert a + b == b;
    }
  }

  /** Index of the first copy of `x` in `s`, or -1 (Java's `indexOf`). */
  function IndexOf(s: seq<int>, x: int): (i: int)
    ensures -1 <= i < |s|
    ensures i == -1 <==> x !in s
    ensures 0 <= i ==> s[i] == x && x !in s[..i]
  {
    if |s| == 0 then -1
    else if s[0] == x then 0
    else
      var i := IndexOf(s[1..], x);
      if i == -1 then -1
      else
        assert s[..i + 1] == [s[0]] + s[1..][..i];
        i + 1
  }

  /** The outcome of `list.remove(element)`: the list afterwards and the returned flag. */
  datatype Removal = Removal(rest: seq<int>, removed: bool)

  /** `MutableList.remove(element)`: drops the first copy of `x`, if any, and
      reports whether there was one. */
  function RemoveFirst(s: seq<int>, x: int): (r: Removal)
    ensures r.removed <==> x in s
    ensures !r.removed ==> r.rest == s
    ensures r.removed ==> |r.rest| == |s| - 1
    ensures multiset(r.rest) == multiset(s) - multiset{x}
    ensures Without(r.rest, x) == Without(s, x)
  {
    var i := IndexOf(s, x);
    if i < 0 then Removal(s, false)
    else
      SplitAt(s, i);
      Removal(s[..i] + s[i + 1..], true)
  }

  /** What `RemoveFirst` leaves: the list with its first copy of `x` cut out. */
  lemma RemoveFirstShape(s: seq<int>, x: int)
    requires x in s
    ensures RemoveFirst(s, x).rest == s[..IndexOf(s, x)] + s[IndexOf(s, x) + 1..]
  {
  }

  /** Cutting the element at `i` out of `s` removes one copy of it and keeps
      everything else. */
  lemma {:induction false} SplitAt(s: seq<int>, i: nat)
    requires i < |s|
    ensures multiset(s[..i] + s[i + 1..]) == multiset(s) - multiset{s[i]}
    ensures Without(s[..i] + s[i + 1..], s[i]) == Without(s, s[i])
  {
    var x := s[i];
    assert s == (s[..i] + [x]) + s[i + 1..];
    assert multiset(s) == multiset(s[..i]) + multiset{x} + multiset(s[i + 1..]);
    WithoutConcat(s[..i] + [x], s[i + 1..], x);
    WithoutConcat(s[..i], [x], x);
    WithoutConcat(s[..i], s[i + 1..], x);
    assert Without([x], x) == [];
  }

  /** `RemoveFirst` applied `n` times in a row. */
  function RemoveN(s: seq<int>, x: int, n: nat): seq<int>
    decreases n
  {
    if n == 0 then s else RemoveN(RemoveFirst(s, x).rest, x, n - 1)
  }

  /** One turn of `RemoveN`. */
  lemma RemoveNUnfold(s: seq<int>, x: int, n: nat)
    requires n > 0
    ensures RemoveN(s, x, n) == RemoveN(RemoveFirst(s, x).rest, x, n - 1)
  {
  }

  /** Removing `x` at least as many times as it occurs leaves exactly
      `Without(s, x)`: every copy goes and nothing else is touched. */
  lemma {:induction false} RemoveNCount(s: seq<int>, x: int, n: nat)
    requires multiset(s)[x] <= n
    ensures RemoveN(s, x, n) == Without(s, x)
    decreases n
  {
    if n == 0 {
      WithoutAbsent(s, x);
    } else {
      var r := RemoveFirst(s, x).rest;
      assert multiset(r)[x] <= n - 1 by {
        assert multiset(r) == multiset(s) - multiset{x};
      }
      RemoveNUnfold(s, x, n);
      RemoveNCount(r, x, n - 1);
    }
  }

  /** `Without` leaves a sequence with no copy of `x` unchanged. */
  lemma {:induction false} WithoutAbsent(s: seq<int>, x: int)
    requires x !in s
    ensures Without(s, x) == s
  {
    if |s| > 0 {
      assert s == [s[0]] + s[1..];
      WithoutAbsent(s[1..], x);
    }
  }
}
