// Text built by appending to a StringBuilder, seen as the parts appended in order.

module StringBuilding {

  /** The text a builder holds after `parts` have been appended to it, first to last. */
  function Concat(parts: seq<string>): string
  {
    if parts == [] then "" else parts[0] + Concat(parts[1..])
  }

  /** Appending two runs of parts one after the other gives the two texts one after the other. */
  lemma {:induction false} ConcatAppend(a: seq<string>, b: seq<string>)
    ensures Concat(a + b) == Concat(a) + Concat(b)
  {
    if a == [] {
      assert a + b == b;
    } else {
      assert (a + b)[1..] == a[1..] + b;
      ConcatAppend(a[1..], b);
    }
  }

  /** One more Append adds its part at the end of the text. */
  lemma ConcatSnoc(parts: seq<string>, last: string)
    ensures Concat(parts + [last]) == Concat(parts) + last
  {
    ConcatAppend(parts, [last]);
    assert Concat([last]) == last + Concat([]);
  }

  /** Appending `b` then `c` appends `b + c`. */
  lemma AppendAssoc(a: string, b: string, c: string)
    ensures (a + b) + c == a + (b + c)
  {
  }

  /** Appending to or appending an empty builder changes nothing. */
  lemma AppendEmpty(s: string)
    ensures "" + s == s && s + "" == s
  {
  }
}
