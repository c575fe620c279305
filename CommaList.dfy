/**
 The comma-separated list parameters of the server's query types:
 `vec_str_deserialize` splits a string at every `,` and keeps every piece,
 `option_vec_str_deserialize` does the same but reads the empty string as
 "no list at all".
 */
module CommaList {
  import opened Wrappers

  const Sep: char := ','

  /** Index of the first separator in `s`, or `|s|` when there is none. */
  function FirstSep(s: string): (i: nat)
    ensures i <= |s|
    ensures forall k :: 0 <= k < i ==> s[k] != Sep
    ensures i < |s| ==> s[i] == Sep
  {
    if |s| == 0 || s[0] == Sep then 0 else 1 + FirstSep(s[1..])
  }

  /** `s.split(',')`: the pieces between separators, in order, empty ones included. */
  function Split(s: string): seq<string>
    decreases |s|
  {
    var i := FirstSep(s);
    if i == |s| then [s] else [s[..i]] + Split(s[i + 1..])
  }

  /** `pieces.join(",")`. */
  function Join(pieces: seq<string>): string {
    if |pieces| == 0 then ""
    else if |pieces| == 1 then pieces[0]
    else pieces[0] + [Sep] + Join(pieces[1..])
  }

  /** Number of separators in `s`. */
  function SepCount(s: string): nat {
    multiset(s)[Sep]
  }

  /** `vec_str_deserialize` on the string it received. */
  function VecStr(s: string): (pieces: seq<string>)
    ensures Join(pieces) == s
    ensures |pieces| == SepCount(s) + 1
    ensures forall k :: 0 <= k < |pieces| ==> Sep !in pieces[k]
  {
    JoinSplit(s);
    SplitCount(s);
    SplitNoSep(s);
    Split(s)
  }

  /** `option_vec_str_deserialize` on the string it received. */
  function OptionVecStr(s: string): (r: Option<seq<string>>)
    ensures r.None? <==> |s| == 0
    ensures r.Some? ==> r.value == VecStr(s)
  {
    if |s| == 0 then None else Some(VecStr(s))
  }

  /** Any index meeting `FirstSep`'s contract is `FirstSep`. */
  lemma FirstSepUnique(s: string, i: nat)
    requires i <= |s|
    requires forall k :: 0 <= k < i ==> s[k] != Sep
    requires i < |s| ==> s[i] == Sep
    ensures FirstSep(s) == i
  {
  }

  /** Split round trip: joining the pieces with `,` gives back the input exactly. */
  lemma {:induction false} JoinSplit(s: string)
    ensures Join(Split(s)) == s
    decreases |s|
  {
    var i := FirstSep(s);
    if i < |s| {
      var rest := Split(s[i + 1..]);
      JoinSplit(s[i + 1..]);
      assert |rest| >= 1;
      assert ([s[..i]] + rest)[1..] == rest;
      assert s == s[..i] + [Sep] + s[i + 1..];
    }
  }

  /** No piece contains a separator. */
  lemma {:induction false} SplitNoSep(s: string)
    ensures forall k :: 0 <= k < |Split(s)| ==> Sep !in Split(s)[k]
    decreases |s|
  {
    var i := FirstSep(s);
    if i < |s| {
      SplitNoSep(s[i + 1..]);
      assert Sep !in s[..i] by {
        forall k | 0 <= k < i ensures s[..i][k] != Sep { }
      }
    } else {
      assert Sep !in s by {
        forall k | 0 <= k < |s| ensures s[k] != Sep { }
      }
    }
  }

  lemma NoSepCount(s: string)
    requires Sep !in s
    ensures SepCount(s) == 0
  {
  }

  /** There is one more piece than there are separators, so the result is never empty. */
  lemma {:induction false} SplitCount(s: string)
    ensures |Split(s)| == SepCount(s) + 1
    decreases |s|
  {
    var i := FirstSep(s);
    if i < |s| {
      SplitCount(s[i + 1..]);
      assert Sep !in s[..i] by {
        forall k | 0 <= k < i ensures s[..i][k] != Sep { }
      }
      NoSepCount(s[..i]);
      assert s == s[..i] + [Sep] + s[i + 1..];
      assert multiset(s) == multiset(s[..i]) + multiset{Sep} + multiset(s[i + 1..]);
    } else {
      assert Sep !in s by {
        forall k | 0 <= k < |s| ensures s[k] != Sep { }
      }
      NoSepCount(s);
    }
  }

  /**
   Splitting at one separator splits the two sides independently: nothing
   around a separator is merged or dropped, so empty pieces survive.
   */
  lemma {:induction false} SplitConcat(a: string, b: string)
    ensures Split(a + [Sep] + b) == Split(a) + Split(b)
    decreases |a|
  {
    var s := a + [Sep] + b;
    var i := FirstSep(a);
    if i == |a| {
      FirstSepUnique(s, |a|);
      assert s[..|a|] == a && s[|a| + 1..] == b;
    } else {
      FirstSepUnique(s, i);
      assert s[..i] == a[..i];
      assert s[i + 1..] == a[i + 1..] + [Sep] + b;
      SplitConcat(a[i + 1..], b);
    }
  }

  /** Splitting is the inverse of joining pieces that hold no separator. */
  lemma {:induction false} SplitJoin(pieces: seq<string>)
    requires |pieces| >= 1
    requires forall k :: 0 <= k < |pieces| ==> Sep !in pieces[k]
    ensures Split(Join(pieces)) == pieces
    decreases |pieces|
  {
    var p := pieces[0];
    FirstSepUnique(p, |p|);
    if |pieces| > 1 {
      SplitJoin(pieces[1..]);
      SplitConcat(p, Join(pieces[1..]));
      assert pieces == [p] + pieces[1..];
    }
  }

  /** The empty string is one empty piece. */
  lemma SplitEmpty()
    ensures Split("") == [""]
  {
  }

  /** A trailing separator gives a trailing empty piece. */
  lemma SplitTrailingSep(s: string)
    ensures Split(s + [Sep]) == Split(s) + [""]
  {
    SplitConcat(s, "");
    assert s + [Sep] + "" == s + [Sep];
  }

  /** A leading separator gives a leading empty piece. */
  lemma SplitLeadingSep(s: string)
    ensures Split([Sep] + s) == [""] + Split(s)
  {
    SplitConcat("", s);
    assert "" + [Sep] + s == [Sep] + s;
  }

  /** `"a,,b"` splits into `"a"`, `""` and `"b"`. */
  lemma SplitDoubleSep()
    ensures Split("a,,b") == ["a", "", "b"]
  {
    SplitConcat("a", ",b");
    assert "a" + [Sep] + ",b" == "a,,b";
    SplitLeadingSep("b");
    assert [Sep] + "b" == ",b";
  }
}
