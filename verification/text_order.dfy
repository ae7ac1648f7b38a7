/** The order `Array.prototype.sort` uses when no comparator is given:
    strings compared by their UTF-16 code units, lexicographically. This is
    not code-point order: a character above U+FFFF is written with a
    surrogate unit 0xD800..0xDBFF and so sorts before U+E000..U+FFFF. */
module TextOrder {
  import Sorting

  /** The UTF-16 code units of one character. */
  function Units(c: char): (u: seq<int>)
    ensures 1 <= |u| <= 2
    ensures forall k :: 0 <= k < |u| ==> 0 <= u[k] < 0x10000
  {
    var v := c as int;
    if v < 0x10000 then [v]
    else [0xD800 + (v - 0x10000) / 0x400, 0xDC00 + (v - 0x10000) % 0x400]
  }

  function Utf16(s: string): seq<int> {
    if |s| == 0 then [] else Units(s[0]) + Utf16(s[1..])
  }

  /** `a` is a prefix of `b`, or the first differing unit of `a` is smaller. */
  predicate LexLe(a: seq<int>, b: seq<int>) {
    |a| == 0 || (|b| > 0 && (a[0] < b[0] || (a[0] == b[0] && LexLe(a[1..], b[1..]))))
  }

  /** `a` does not sort after `b`. */
  predicate Le(a: string, b: string) {
    LexLe(Utf16(a), Utf16(b))
  }

  lemma {:induction false} LexLeTotal(a: seq<int>, b: seq<int>)
    ensures LexLe(a, b) || LexLe(b, a)
  {
    if |a| > 0 && |b| > 0 && a[0] == b[0] {
      LexLeTotal(a[1..], b[1..]);
    }
  }

  lemma {:induction false} LexLeTransitive(a: seq<int>, b: seq<int>, c: seq<int>)
    requires LexLe(a, b) && LexLe(b, c)
    ensures LexLe(a, c)
  {
    if |a| > 0 && a[0] == b[0] && b[0] == c[0] {
      LexLeTransitive(a[1..], b[1..], c[1..]);
    }
  }

  /** The default string order is a total preorder, so sorting by it is well defined. */
  lemma LeIsTotalPreorder()
    ensures Sorting.TotalPreorder(Le)
  {
    forall a: string, b: string ensures Le(a, b) || Le(b, a) {
      LexLeTotal(Utf16(a), Utf16(b));
    }
    forall a: string, b: string, c: string | Le(a, b) && Le(b, c) ensures Le(a, c) {
      LexLeTransitive(Utf16(a), Utf16(b), Utf16(c));
    }
  }
}
