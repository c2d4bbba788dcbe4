/** String operations the application relies on: the case mapping behind Python's str.lower()
    and PostgreSQL's UPPER (used by `icontains` lookups), substring search, and the
    lexicographic order that ORDER BY applies to text columns. */
module Text {

  /** Upper case for ASCII letters and the basic Cyrillic alphabet (the site's content is in
      Russian); every other character maps to itself. */
  function UpperChar(c: char): char {
    if 'a' <= c <= 'z' then (c as int - 32) as char
    else if 'а' <= c <= 'я' then (c as int - 32) as char
    else if c == 'ё' then 'Ё'
    else c
  }

  /** Lower case, the inverse mapping of UpperChar on the same alphabets. */
  function LowerChar(c: char): char {
    if 'A' <= c <= 'Z' then (c as int + 32) as char
    else if 'А' <= c <= 'Я' then (c as int + 32) as char
    else if c == 'Ё' then 'ё'
    else c
  }

  function Upper(s: string): string {
    seq(|s|, i requires 0 <= i < |s| => UpperChar(s[i]))
  }

  function Lower(s: string): string {
    seq(|s|, i requires 0 <= i < |s| => LowerChar(s[i]))
  }

  /** Lower-casing is idempotent: a name lowered once is already in its final form. */
  lemma LowerIdempotent(s: string)
    ensures Lower(Lower(s)) == Lower(s)
  {
  }

  /** Upper-casing is idempotent. */
  lemma UpperIdempotent(s: string)
    ensures Upper(Upper(s)) == Upper(s)
  {
  }

  predicate StartsWith(s: string, prefix: string) {
    |prefix| <= |s| && s[..|prefix|] == prefix
  }

  /** `needle` occurs in `hay`, searched from the front one position at a time. */
  predicate Contains(hay: string, needle: string)
    decreases |hay|
  {
    StartsWith(hay, needle) || (|hay| > 0 && Contains(hay[1..], needle))
  }

  /** `needle` occurs in `hay` at position i. */
  ghost predicate OccursAt(hay: string, needle: string, i: nat) {
    i + |needle| <= |hay| && hay[i..i + |needle|] == needle
  }

  /** Contains agrees with the definition of a substring: some slice of `hay` equals `needle`. */
  lemma {:induction false} ContainsIffOccurs(hay: string, needle: string)
    ensures Contains(hay, needle) <==> exists i: nat :: OccursAt(hay, needle, i)
    decreases |hay|
  {
    if Contains(hay, needle) {
      if StartsWith(hay, needle) {
        assert OccursAt(hay, needle, 0);
      } else {
        ContainsIffOccurs(hay[1..], needle);
        var j: nat :| OccursAt(hay[1..], needle, j);
        assert hay[1..][j..j + |needle|] == hay[j + 1..j + 1 + |needle|];
        assert OccursAt(hay, needle, j + 1);
      }
    }
    if exists i: nat :: OccursAt(hay, needle, i) {
      var i: nat :| OccursAt(hay, needle, i);
      if i == 0 {
        assert StartsWith(hay, needle);
      } else {
        assert hay[1..][i - 1..i - 1 + |needle|] == hay[i..i + |needle|];
        assert OccursAt(hay[1..], needle, i - 1);
        ContainsIffOccurs(hay[1..], needle);
      }
    }
  }

  /** Django's `icontains` lookup on PostgreSQL: UPPER(hay) LIKE UPPER('%needle%'), with the
      wildcard characters of `needle` escaped. */
  predicate IContains(hay: string, needle: string) {
    Contains(Upper(hay), Upper(needle))
  }

  /** An upper-cased query matches the same texts as the query itself. */
  lemma IContainsUpperQuery(hay: string, needle: string)
    ensures IContains(hay, Upper(needle)) == IContains(hay, needle)
  {
    UpperIdempotent(needle);
  }

  /** The empty string occurs in every string. */
  lemma EmptyOccursEverywhere(hay: string)
    ensures IContains(hay, "")
  {
    assert Upper("") == "";
    assert StartsWith(Upper(hay), "");
  }

  /** Lexicographic order on code points. */
  predicate StrLe(a: string, b: string)
    decreases |a|
  {
    a == [] || (b != [] && (a[0] < b[0] || (a[0] == b[0] && StrLe(a[1..], b[1..]))))
  }

  lemma {:induction false} StrLeTotal(a: string, b: string)
    ensures StrLe(a, b) || StrLe(b, a)
    decreases |a|
  {
    if a != [] && b != [] && a[0] == b[0] {
      StrLeTotal(a[1..], b[1..]);
    }
  }

  lemma {:induction false} StrLeTransitive(a: string, b: string, c: string)
    requires StrLe(a, b) && StrLe(b, c)
    ensures StrLe(a, c)
    decreases |a|
  {
    if a != [] && a[0] == b[0] && b[0] == c[0] {
      StrLeTransitive(a[1..], b[1..], c[1..]);
    }
  }

  lemma {:induction false} StrLeAntisymmetric(a: string, b: string)
    requires StrLe(a, b) && StrLe(b, a)
    ensures a == b
    decreases |a|
  {
    if a != [] {
      StrLeAntisymmetric(a[1..], b[1..]);
      assert a == [a[0]] + a[1..];
      assert b == [b[0]] + b[1..];
    }
  }

  /** A strict step followed by a non-strict one is strict. */
  lemma {:induction false} StrLtLeTransitive(a: string, b: string, c: string)
    requires StrLe(a, b) && a != b && StrLe(b, c)
    ensures StrLe(a, c) && a != c
    decreases |a|
  {
    StrLeTransitive(a, b, c);
    if a != [] && a[0] == b[0] && b[0] == c[0] {
      assert a == [a[0]] + a[1..] && b == [b[0]] + b[1..];
      StrLtLeTransitive(a[1..], b[1..], c[1..]);
    }
  }
}
