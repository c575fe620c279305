/**
 Three-way comparison as Rust's `Ord` trait defines it for the field types of
 the result records: unsigned integers, `String` and `Option<String>`.
 `#[derive(Ord)]` on a struct compares its fields with these comparators, in
 declaration order, and stops at the first field that is not `Equal`.
 */
module Cmp {
  import opened Wrappers

  /** Rust's `std::cmp::Ordering`. */
  datatype Ordering = Less | Equal | Greater {

    /** The result of comparing the same two values the other way round. */
    function Reverse(): (r: Ordering)
      ensures r == Equal <==> this == Equal
    {
      match this
      case Less => Greater
      case Equal => Equal
      case Greater => Less
    }

    /** `Ordering::then`: this result, unless it is `Equal`, else the next field's. */
    function Then(next: Ordering): Ordering {
      if Equal? then next else this
    }
  }

  /** Ordering of two integers (the `u32` fields). */
  function CmpInt(a: int, b: int): (r: Ordering)
    ensures r == Less <==> a < b
    ensures r == Equal <==> a == b
    ensures r == Greater <==> b < a
  {
    if a < b then Less else if a == b then Equal else Greater
  }

  /**
   Ordering of two strings: the first differing character decides, and a
   proper prefix comes before the longer string. Rust compares the UTF-8
   bytes; on valid UTF-8 that agrees with comparing code points, which is
   what `char` comparison does here.
   */
  function CmpString(a: string, b: string): Ordering
    decreases |a|
  {
    if |a| == 0 && |b| == 0 then Equal
    else if |a| == 0 then Less
    else if |b| == 0 then Greater
    else if a[0] < b[0] then Less
    else if b[0] < a[0] then Greater
    else CmpString(a[1..], b[1..])
  }

  /** Lexicographic "less than", stated directly: a proper prefix, or a first difference that is smaller. */
  ghost predicate LexLess(a: string, b: string) {
    || (|a| < |b| && a == b[..|a|])
    || exists k :: 0 <= k < |a| && k < |b| && a[..k] == b[..k] && a[k] < b[k]
  }

  lemma {:induction false} CmpStringEqual(a: string, b: string)
    ensures CmpString(a, b) == Equal <==> a == b
    decreases |a|
  {
    if |a| > 0 && |b| > 0 && a[0] == b[0] {
      CmpStringEqual(a[1..], b[1..]);
      assert a == [a[0]] + a[1..] && b == [b[0]] + b[1..];
    }
  }

  lemma {:induction false} CmpStringReverse(a: string, b: string)
    ensures CmpString(b, a) == CmpString(a, b).Reverse()
    decreases |a|
  {
    if |a| > 0 && |b| > 0 && a[0] == b[0] {
      CmpStringReverse(a[1..], b[1..]);
    }
  }

  lemma {:induction false} CmpStringTransitive(a: string, b: string, c: string)
    requires CmpString(a, b) == Less && CmpString(b, c) == Less
    ensures CmpString(a, c) == Less
    decreases |a|
  {
    if |a| > 0 && |c| > 0 && a[0] == c[0] {
      CmpStringTransitive(a[1..], b[1..], c[1..]);
    }
  }

  /** `CmpString` agrees with the direct definition of lexicographic order. */
  lemma {:induction false} CmpStringLess(a: string, b: string)
    ensures CmpString(a, b) == Less <==> LexLess(a, b)
    decreases |a|
  {
    if |a| == 0 {
      if |b| > 0 {
        assert a == b[..0];
      }
    } else if |b| == 0 {
    } else if a[0] < b[0] {
      assert a[..0] == b[..0];
    } else if b[0] < a[0] {
      forall k | 0 < k <= |a| && k <= |b| ensures a[..k] != b[..k] {
        assert a[..k][0] == a[0] && b[..k][0] == b[0];
      }
    } else {
      CmpStringLess(a[1..], b[1..]);
      LexLessTail(a, b);
    }
  }

  /** Two strings with the same first character: the order of their tails decides. */
  lemma LexLessTail(a: string, b: string)
    requires |a| > 0 && |b| > 0 && a[0] == b[0]
    ensures LexLess(a, b) <==> LexLess(a[1..], b[1..])
  {
    var a', b' := a[1..], b[1..];
    if LexLess(a, b) {
      if |a| < |b| && a == b[..|a|] {
        assert a' == b'[..|a'|];
      } else {
        var k :| 0 <= k < |a| && k < |b| && a[..k] == b[..k] && a[k] < b[k];
        assert k > 0;
        assert a'[..k - 1] == b'[..k - 1] by {
          assert a'[..k - 1] == a[..k][1..] && b'[..k - 1] == b[..k][1..];
        }
        assert a'[k - 1] < b'[k - 1];
      }
    }
    if LexLess(a', b') {
      if |a'| < |b'| && a' == b'[..|a'|] {
        assert a == [a[0]] + a' && b[..|a|] == [b[0]] + b'[..|a'|];
      } else {
        var k :| 0 <= k < |a'| && k < |b'| && a'[..k] == b'[..k] && a'[k] < b'[k];
        assert a[..k + 1] == [a[0]] + a'[..k] && b[..k + 1] == [b[0]] + b'[..k];
        assert a[k + 1] < b[k + 1];
      }
    }
  }

  /** Ordering of two optional strings: `None` comes before every `Some`. */
  function CmpOption(a: Option<string>, b: Option<string>): Ordering {
    match (a, b)
    case (None, None) => Equal
    case (None, Some(_)) => Less
    case (Some(_), None) => Greater
    case (Some(x), Some(y)) => CmpString(x, y)
  }

  lemma CmpOptionEqual(a: Option<string>, b: Option<string>)
    ensures CmpOption(a, b) == Equal <==> a == b
  {
    if a.Some? && b.Some? {
      CmpStringEqual(a.value, b.value);
    }
  }

  lemma CmpOptionReverse(a: Option<string>, b: Option<string>)
    ensures CmpOption(b, a) == CmpOption(a, b).Reverse()
  {
    if a.Some? && b.Some? {
      CmpStringReverse(a.value, b.value);
    }
  }

  lemma CmpOptionTransitive(a: Option<string>, b: Option<string>, c: Option<string>)
    requires CmpOption(a, b) == Less && CmpOption(b, c) == Less
    ensures CmpOption(a, c) == Less
  {
    if a.Some? && b.Some? && c.Some? {
      CmpStringTransitive(a.value, b.value, c.value);
    }
  }

  /** The relational properties of a total order, for the `<=` that `Ord` induces. */
  ghost predicate TotalOrdering<T(!new)>(le: (T, T) -> bool) {
    && (forall x :: le(x, x))
    && (forall x, y :: le(x, y) && le(y, x) ==> x == y)
    && (forall x, y, z :: le(x, y) && le(y, z) ==> le(x, z))
    && (forall x, y :: le(x, y) || le(y, x))
  }
}
