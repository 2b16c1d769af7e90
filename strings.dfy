/**
 * Text helpers of the opaque-id codec: JavaScript's `split('|')`, the `|`
 * framing it undoes, and the truthiness of an optional type label.
 */
module Strings {
  import opened Wrappers

  /** The field delimiter of the serialised form `type|id[|metadata]`. */
  const Delimiter: char := '|'

  /** Every character is below 0x80. */
  predicate IsAscii(s: string) {
    forall i :: 0 <= i < |s| ==> s[i] as int < 0x80
  }

  /**
   * `s.split('|')`: the maximal `|`-free runs of `s`, in order.  As in
   * JavaScript there is always at least one piece (`"".split('|')` is `[""]`),
   * and a delimiter at either end yields an empty piece there.
   */
  function Split(s: string): (parts: seq<string>)
    ensures |parts| >= 1
    decreases |s|
  {
    if s == [] then [[]]
    else if s[0] == Delimiter then [[]] + Split(s[1..])
    else
      var rest := Split(s[1..]);
      [[s[0]] + rest[0]] + rest[1..]
  }

  /** `parts.join('|')`. */
  function Join(parts: seq<string>): string
    requires |parts| >= 1
    decreases |parts|
  {
    if |parts| == 1 then parts[0] else parts[0] + [Delimiter] + Join(parts[1..])
  }

  /** No piece contains the delimiter. */
  predicate AllFree(parts: seq<string>) {
    forall i :: 0 <= i < |parts| ==> Delimiter !in parts[i]
  }

  /** `type || ''` for an optional type label: `undefined` reads as the empty string. */
  function OrEmpty(tag: Option<string>): (s: string)
    ensures tag.Some? ==> s == tag.value
    ensures tag.None? ==> s == ""
  {
    match tag
    case None => ""
    case Some(t) => t
  }

  /** Text without a delimiter splits into itself alone. */
  lemma {:induction false} SplitFree(s: string)
    requires Delimiter !in s
    ensures Split(s) == [s]
    decreases |s|
  {
    if s != [] {
      SplitFree(s[1..]);
      assert [s[0]] + s[1..] == s;
    }
  }

  /** The key framing lemma: a `|`-free prefix followed by `|` is the first piece. */
  lemma {:induction false} SplitPrefix(a: string, b: string)
    requires Delimiter !in a
    ensures Split(a + [Delimiter] + b) == [a] + Split(b)
    decreases |a|
  {
    var s := a + [Delimiter] + b;
    if a == [] {
      assert s[1..] == b;
    } else {
      assert s[1..] == a[1..] + [Delimiter] + b;
      SplitPrefix(a[1..], b);
      assert [a[0]] + a[1..] == a;
    }
  }

  /** Splitting yields exactly one piece if and only if there is no delimiter. */
  lemma {:induction false} SplitSingle(s: string)
    ensures |Split(s)| == 1 <==> Delimiter !in s
    decreases |s|
  {
    if Delimiter !in s {
      SplitFree(s);
    } else {
      assert s != [];
      if s[0] != Delimiter {
        assert Delimiter in s[1..] by {
          var i :| 0 <= i < |s| && s[i] == Delimiter;
          assert s[1..][i - 1] == Delimiter;
        }
        SplitSingle(s[1..]);
      }
    }
  }

  /** Joining after extending the first piece at the front extends the joined text at the front. */
  lemma JoinPrepend(c: char, parts: seq<string>)
    requires |parts| >= 1
    ensures Join([[c] + parts[0]] + parts[1..]) == [c] + Join(parts)
  {
    var q := [[c] + parts[0]] + parts[1..];
    assert |q| == |parts|;
    if |parts| > 1 {
      JoinFirst(q);
      JoinFirst(parts);
      assert q[1..] == parts[1..];
    }
  }

  lemma JoinFirst(parts: seq<string>)
    requires |parts| > 1
    ensures Join(parts) == parts[0] + ([Delimiter] + Join(parts[1..]))
  {
  }

  /** Splitting loses nothing: the pieces join back to the text, and none holds a delimiter. */
  lemma {:induction false} JoinSplit(s: string)
    ensures Join(Split(s)) == s
    ensures AllFree(Split(s))
    decreases |s|
  {
    if s != [] {
      JoinSplit(s[1..]);
      var rest := Split(s[1..]);
      if s[0] == Delimiter {
        assert ([[]] + rest)[1..] == rest;
      } else {
        JoinPrepend(s[0], rest);
        assert [s[0]] + s[1..] == s;
        var parts := [[s[0]] + rest[0]] + rest[1..];
        forall i | 0 <= i < |parts| ensures Delimiter !in parts[i] {
          if i > 0 { assert parts[i] == rest[i]; }
        }
      }
    }
  }

  /** Joining `|`-free pieces and splitting again gives back the pieces. */
  lemma {:induction false} SplitJoin(parts: seq<string>)
    requires |parts| >= 1 && AllFree(parts)
    ensures Split(Join(parts)) == parts
    decreases |parts|
  {
    if |parts| == 1 {
      SplitFree(parts[0]);
    } else {
      assert Delimiter !in parts[0];
      SplitPrefix(parts[0], Join(parts[1..]));
      SplitJoin(parts[1..]);
      assert [parts[0]] + parts[1..] == parts;
    }
  }

  /** Text appended after a delimiter does not change the first piece. */
  lemma {:induction false} SplitFirstOfAppend(a: string, b: string)
    requires b == [] || b[0] == Delimiter
    ensures Split(a + b)[0] == Split(a)[0]
    decreases |a|
  {
    if a == [] {
      if b != [] {
        assert (a + b)[1..] == b[1..];
      }
    } else {
      assert (a + b)[1..] == a[1..] + b;
      SplitFirstOfAppend(a[1..], b);
    }
  }
}
