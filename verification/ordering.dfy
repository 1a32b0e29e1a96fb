/**
  Python's comparison of strings (code point by code point, a proper prefix
  first) and of tuples of strings, which decide the order in which pandas
  sorts driver numbers and group keys.
 */
module Ordering {

  /** `a <= b` for Python strings. */
  predicate StrLe(a: string, b: string)
    decreases |a|
  {
    if |a| == 0 then true
    else if |b| == 0 then false
    else a[0] < b[0] || (a[0] == b[0] && StrLe(a[1..], b[1..]))
  }

  /** `a < b` for Python strings. */
  predicate StrLt(a: string, b: string) {
    StrLe(a, b) && a != b
  }

  lemma {:induction false} StrLeTotal(a: string, b: string)
    ensures StrLe(a, b) || StrLe(b, a)
  {
    if |a| > 0 && |b| > 0 && a[0] == b[0] {
      StrLeTotal(a[1..], b[1..]);
    }
  }

  lemma {:induction false} StrLeAntisymmetric(a: string, b: string)
    requires StrLe(a, b) && StrLe(b, a)
    ensures a == b
  {
    if |a| > 0 {
      StrLeAntisymmetric(a[1..], b[1..]);
      assert a == [a[0]] + a[1..] && b == [b[0]] + b[1..];
    }
  }

  lemma {:induction false} StrLeTransitive(a: string, b: string, c: string)
    requires StrLe(a, b) && StrLe(b, c)
    ensures StrLe(a, c)
  {
    if |a| > 0 && a[0] == b[0] && b[0] == c[0] {
      StrLeTransitive(a[1..], b[1..], c[1..]);
    }
  }

  /** Exactly one of `a < b`, `a == b`, `b < a` holds. */
  lemma StrLtTrichotomy(a: string, b: string)
    ensures StrLt(a, b) || a == b || StrLt(b, a)
    ensures !(StrLt(a, b) && StrLt(b, a))
  {
    StrLeTotal(a, b);
    if StrLe(a, b) && StrLe(b, a) {
      StrLeAntisymmetric(a, b);
    }
  }

  lemma StrLtTransitive(a: string, b: string, c: string)
    requires StrLt(a, b) && StrLt(b, c)
    ensures StrLt(a, c)
  {
    StrLeTransitive(a, b, c);
    if a == c {
      StrLeAntisymmetric(a, b);
    }
  }

  /** `a <= b` for Python tuples of strings. */
  predicate NamesLe(a: seq<string>, b: seq<string>)
    decreases |a|
  {
    if |a| == 0 then true
    else if |b| == 0 then false
    else StrLt(a[0], b[0]) || (a[0] == b[0] && NamesLe(a[1..], b[1..]))
  }

  lemma {:induction false} NamesLeTotal(a: seq<string>, b: seq<string>)
    ensures NamesLe(a, b) || NamesLe(b, a)
  {
    if |a| > 0 && |b| > 0 {
      StrLtTrichotomy(a[0], b[0]);
      if a[0] == b[0] {
        NamesLeTotal(a[1..], b[1..]);
      }
    }
  }

  lemma {:induction false} NamesLeAntisymmetric(a: seq<string>, b: seq<string>)
    requires NamesLe(a, b) && NamesLe(b, a)
    ensures a == b
  {
    if |a| > 0 {
      StrLtTrichotomy(a[0], b[0]);
      NamesLeAntisymmetric(a[1..], b[1..]);
      assert a == [a[0]] + a[1..] && b == [b[0]] + b[1..];
    }
  }

  lemma {:induction false} NamesLeTransitive(a: seq<string>, b: seq<string>, c: seq<string>)
    requires NamesLe(a, b) && NamesLe(b, c)
    ensures NamesLe(a, c)
  {
    if |a| > 0 {
      if StrLt(a[0], b[0]) && StrLt(b[0], c[0]) {
        StrLtTransitive(a[0], b[0], c[0]);
      } else if a[0] == b[0] && b[0] == c[0] {
        NamesLeTransitive(a[1..], b[1..], c[1..]);
      }
    }
  }
}
