/**
 * The length-then-bytes order both the writer's path comparator and the
 * reader's item comparator are built from: `memcmp` over a byte count, and
 * "difference of lengths, else memcmp over that length".
 *
 * C only promises the sign of memcmp's result; the model returns -1, 0 or 1.
 */
module MemCmp {
  import opened PackFormat

  /** Lexicographic comparison of two byte strings of equal length. */
  function Lex(a: seq<uint8>, b: seq<uint8>): (r: int)
    requires |a| == |b|
    ensures -1 <= r <= 1
    decreases |a|
  {
    if |a| == 0 then 0
    else if a[0] < b[0] then -1
    else if a[0] > b[0] then 1
    else Lex(a[1..], b[1..])
  }

  /** memcmp(a, b, n): only the first n bytes of each buffer are looked at. */
  function MemCmp(a: seq<uint8>, b: seq<uint8>, n: nat): (r: int)
    requires n <= |a| && n <= |b|
    ensures -1 <= r <= 1
    ensures r == 0 <==> a[..n] == b[..n]
    ensures r < 0 <==> exists i :: 0 <= i < n && a[..i] == b[..i] && a[i] < b[i]
  {
    LexZero(a[..n], b[..n]);
    LexBelow(a[..n], b[..n]);
    assert forall i :: 0 <= i < n ==> a[..n][..i] == a[..i] && b[..n][..i] == b[..i];
    Lex(a[..n], b[..n])
  }

  lemma {:induction false} LexZero(a: seq<uint8>, b: seq<uint8>)
    requires |a| == |b|
    ensures Lex(a, b) == 0 <==> a == b
    decreases |a|
  {
    if |a| > 0 {
      LexZero(a[1..], b[1..]);
      if a[0] == b[0] && a[1..] == b[1..] {
        assert a == [a[0]] + a[1..] && b == [b[0]] + b[1..];
      }
    }
  }

  /** Lex is negative exactly when the first difference has the smaller byte in a. */
  lemma {:induction false} LexBelow(a: seq<uint8>, b: seq<uint8>)
    requires |a| == |b|
    ensures Lex(a, b) < 0 <==> exists i :: 0 <= i < |a| && a[..i] == b[..i] && a[i] < b[i]
    decreases |a|
  {
    if |a| == 0 {
    } else if a[0] < b[0] {
      assert a[..0] == b[..0];
    } else if a[0] > b[0] {
    } else {
      LexBelow(a[1..], b[1..]);
      if Lex(a, b) < 0 {
        var j :| 0 <= j < |a| - 1 && a[1..][..j] == b[1..][..j] && a[1..][j] < b[1..][j];
        assert a[..j + 1] == [a[0]] + a[1..][..j];
        assert b[..j + 1] == [b[0]] + b[1..][..j];
      }
      forall i | 0 < i < |a| && a[..i] == b[..i] && a[i] < b[i]
        ensures Lex(a, b) < 0
      {
        assert a[1..][..i - 1] == a[..i][1..];
        assert b[1..][..i - 1] == b[..i][1..];
        assert a[1..][i - 1] < b[1..][i - 1];
      }
    }
  }

  lemma {:induction false} LexAntisymmetric(a: seq<uint8>, b: seq<uint8>)
    requires |a| == |b|
    ensures Lex(a, b) == -Lex(b, a)
    decreases |a|
  {
    if |a| > 0 && a[0] == b[0] {
      LexAntisymmetric(a[1..], b[1..]);
    }
  }

  lemma {:induction false} LexTransitive(a: seq<uint8>, b: seq<uint8>, c: seq<uint8>)
    requires |a| == |b| == |c|
    requires Lex(a, b) <= 0 && Lex(b, c) <= 0
    ensures Lex(a, c) <= 0
    decreases |a|
  {
    if |a| > 0 && a[0] == b[0] == c[0] {
      LexTransitive(a[1..], b[1..], c[1..]);
    }
  }

  lemma {:induction false} LexStrictLeft(a: seq<uint8>, b: seq<uint8>, c: seq<uint8>)
    requires |a| == |b| == |c|
    requires Lex(a, b) < 0 && Lex(b, c) <= 0
    ensures Lex(a, c) < 0
    decreases |a|
  {
    if a[0] == b[0] == c[0] {
      LexStrictLeft(a[1..], b[1..], c[1..]);
    }
  }

  lemma {:induction false} LexStrictRight(a: seq<uint8>, b: seq<uint8>, c: seq<uint8>)
    requires |a| == |b| == |c|
    requires Lex(a, b) <= 0 && Lex(b, c) < 0
    ensures Lex(a, c) < 0
    decreases |a|
  {
    if a[0] == b[0] == c[0] {
      LexStrictRight(a[1..], b[1..], c[1..]);
    }
  }

  /**
   * Order by the first length, then by memcmp over that length: the shape of
   * comparePackItemPaths (writer) and comparePackItems (reader).
   */
  function CompareSized(la: nat, a: seq<uint8>, lb: nat, b: seq<uint8>): (r: int)
    requires la <= |a| && lb <= |b|
    ensures r == 0 <==> la == lb && a[..la] == b[..lb]
    ensures r < 0 <==> la < lb || (la == lb && Lex(a[..la], b[..lb]) < 0)
  {
    var difference := la - lb;
    if difference != 0 then difference
    else
      LexZero(a[..la], b[..la]);
      MemCmp(a, b, la)
  }

  lemma CompareSizedAntisymmetric(la: nat, a: seq<uint8>, lb: nat, b: seq<uint8>)
    requires la <= |a| && lb <= |b|
    ensures CompareSized(la, a, lb, b) < 0 <==> CompareSized(lb, b, la, a) > 0
    ensures CompareSized(la, a, lb, b) == 0 <==> CompareSized(lb, b, la, a) == 0
  {
    if la == lb {
      LexAntisymmetric(a[..la], b[..lb]);
    }
  }

  lemma CompareSizedTransitive(la: nat, a: seq<uint8>, lb: nat, b: seq<uint8>, lc: nat, c: seq<uint8>)
    requires la <= |a| && lb <= |b| && lc <= |c|
    requires CompareSized(la, a, lb, b) <= 0 && CompareSized(lb, b, lc, c) <= 0
    ensures CompareSized(la, a, lc, c) <= 0
  {
    if la == lb == lc {
      LexTransitive(a[..la], b[..lb], c[..lc]);
    }
  }

  lemma CompareSizedStrictLeft(la: nat, a: seq<uint8>, lb: nat, b: seq<uint8>, lc: nat, c: seq<uint8>)
    requires la <= |a| && lb <= |b| && lc <= |c|
    requires CompareSized(la, a, lb, b) < 0 && CompareSized(lb, b, lc, c) <= 0
    ensures CompareSized(la, a, lc, c) < 0
  {
    if la == lb == lc {
      LexStrictLeft(a[..la], b[..lb], c[..lc]);
    }
  }

  lemma CompareSizedStrictRight(la: nat, a: seq<uint8>, lb: nat, b: seq<uint8>, lc: nat, c: seq<uint8>)
    requires la <= |a| && lb <= |b| && lc <= |c|
    requires CompareSized(la, a, lb, b) <= 0 && CompareSized(lb, b, lc, c) < 0
    ensures CompareSized(la, a, lc, c) < 0
  {
    if la == lb == lc {
      LexStrictRight(a[..la], b[..lb], c[..lc]);
    }
  }

  /** Two operands with the same length and leading bytes compare the same against a third. */
  lemma CompareSizedCongruent(la: nat, a: seq<uint8>, la': nat, a': seq<uint8>, lb: nat, b: seq<uint8>)
    requires la <= |a| && la' <= |a'| && lb <= |b|
    requires CompareSized(la, a, la', a') == 0
    ensures CompareSized(la, a, lb, b) == CompareSized(la', a', lb, b)
  {
  }
}
