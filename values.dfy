/** Values every stage of the price-list pipeline shares: spreadsheet cell
    values, the exceptions the pipeline can raise, and the string helpers it
    relies on (lower-casing, the `in` substring test, `'\\'.join`). */
module Values {

  datatype Option<+T> = None | Some(value: T)

  /** A cell value as the spreadsheet reader hands it over. Only text and
      whole numbers are modelled. */
  datatype Value = Text(s: string) | Number(n: int)

  /** The exceptions the modelled code raises; each aborts the whole run. */
  datatype Error =
    | MissingColumn(column: nat)  // KeyError: a filled cell whose column has no header name
    | MissingName                 // KeyError: the item has no 'Номенклатура' field
    | NameNotText                 // AttributeError: .lower() on a name that is not text
    | NotIterable                 // TypeError: a bare row where a nested list is expected
    | BadRowIndex                 // a nested list used as a row number
    | EmptyOutline                // IndexError: x[0] of an empty outline

  datatype Result<+T> = Ok(value: T) | Err(error: Error)

  /** Python truthiness of a cell value: non-empty text, non-zero number. */
  predicate Truthy(v: Value) {
    match v
    case Text(s) => s != []
    case Number(n) => n != 0
  }

  /** `str.lower` on one character, restricted to Latin and basic Cyrillic
      capitals; every other character is left alone. */
  function LowerChar(c: char): char {
    if 'A' <= c <= 'Z' then (c as int + 32) as char
    else if '\U{0410}' <= c <= '\U{042F}' then (c as int + 32) as char
    else if '\U{0400}' <= c <= '\U{040F}' then (c as int + 80) as char
    else c
  }

  function Lower(s: string): (r: string)
    ensures |r| == |s|
    ensures forall i :: 0 <= i < |s| ==> r[i] == LowerChar(s[i])
  {
    if s == [] then [] else [LowerChar(s[0])] + Lower(s[1..])
  }

  predicate IsPrefix(p: string, s: string) {
    |p| <= |s| && s[..|p|] == p
  }

  /** Python's `needle in hay` for strings, one start position at a time. */
  predicate Contains(hay: string, needle: string)
    decreases |hay|
  {
    IsPrefix(needle, hay) || (hay != [] && Contains(hay[1..], needle))
  }

  /** `needle` occurs in `hay` starting at position `i`. */
  predicate OccursAt(hay: string, needle: string, i: int) {
    0 <= i && i + |needle| <= |hay| && hay[i..i + |needle|] == needle
  }

  /** `Contains` holds exactly when `needle` occurs as a slice of `hay`. */
  lemma {:induction false} ContainsIff(hay: string, needle: string)
    ensures Contains(hay, needle) <==> exists i :: OccursAt(hay, needle, i)
    decreases |hay|
  {
    if IsPrefix(needle, hay) {
      assert OccursAt(hay, needle, 0);
    } else if hay == [] {
      assert OccursAt(hay, needle, 0) ==> IsPrefix(needle, hay);
    } else {
      ContainsIff(hay[1..], needle);
      if Contains(hay[1..], needle) {
        var i :| OccursAt(hay[1..], needle, i);
        assert hay[i + 1..i + 1 + |needle|] == hay[1..][i..i + |needle|];
        assert OccursAt(hay, needle, i + 1);
      }
      assert OccursAt(hay, needle, 0) ==> IsPrefix(needle, hay);
      if exists i :: OccursAt(hay, needle, i) {
        var i :| OccursAt(hay, needle, i);
        assert hay[1..][i - 1..i - 1 + |needle|] == hay[i..i + |needle|];
        assert OccursAt(hay[1..], needle, i - 1);
      }
    }
  }

  /** `sep.join(parts)` for a one-character separator. */
  function Join(parts: seq<string>, sep: char): string {
    if parts == [] then []
    else if |parts| == 1 then parts[0]
    else parts[0] + [sep] + Join(parts[1..], sep)
  }

  /** `s.split(sep)`: the pieces between separators. */
  function SplitOn(s: string, sep: char): (r: seq<string>)
    ensures |r| > 0
    decreases |s|
  {
    if s == [] then [[]]
    else if s[0] == sep then [[]] + SplitOn(s[1..], sep)
    else var rest := SplitOn(s[1..], sep); [[s[0]] + rest[0]] + rest[1..]
  }

  lemma {:induction false} SplitPlain(p: string, tail: string, sep: char)
    requires sep !in p
    ensures SplitOn(p + tail, sep) ==
      [p + SplitOn(tail, sep)[0]] + SplitOn(tail, sep)[1..]
    decreases |p|
  {
    if p != [] {
      assert (p + tail)[1..] == p[1..] + tail;
      assert (p + tail)[0] == p[0] != sep;
      SplitPlain(p[1..], tail, sep);
      assert [p[0]] + (p[1..] + SplitOn(tail, sep)[0]) == p + SplitOn(tail, sep)[0];
    } else {
      var t := SplitOn(tail, sep);
      assert p + tail == tail && p + t[0] == t[0];
      assert t == [t[0]] + t[1..];
    }
  }

  /** Joining keywords that do not contain the separator can be undone. */
  lemma {:induction false} JoinSplit(parts: seq<string>, sep: char)
    requires |parts| > 0
    requires forall k :: 0 <= k < |parts| ==> sep !in parts[k]
    ensures SplitOn(Join(parts, sep), sep) == parts
    decreases |parts|
  {
    if |parts| == 1 {
      SplitPlain(parts[0], [], sep);
      assert parts[0] + [] == parts[0];
    } else {
      var rest := Join(parts[1..], sep);
      JoinSplit(parts[1..], sep);
      assert parts[0] + [sep] + rest == parts[0] + ([sep] + rest);
      SplitPlain(parts[0], [sep] + rest, sep);
      assert ([sep] + rest)[0] == sep && ([sep] + rest)[1..] == rest;
      assert SplitOn([sep] + rest, sep) == [[]] + parts[1..];
      assert parts[0] + [] == parts[0];
      assert parts == [parts[0]] + parts[1..];
    }
  }

  // ---------------------------------------------------------------------
  // Subsequences

  /** `a` is `b` with some elements left out, the rest in order. */
  predicate IsSubseq<T(==)>(a: seq<T>, b: seq<T>)
    decreases |b|
  {
    a == [] || (b != [] && ((a[0] == b[0] && IsSubseq(a[1..], b[1..])) || IsSubseq(a, b[1..])))
  }

  predicate Distinct<T(==)>(s: seq<T>) {
    forall i, j :: 0 <= i < j < |s| ==> s[i] != s[j]
  }

  lemma {:induction false} SubseqRefl<T>(a: seq<T>)
    ensures IsSubseq(a, a)
    decreases |a|
  {
    if a != [] { SubseqRefl(a[1..]); }
  }

  lemma {:induction false} SubseqConcat<T>(a1: seq<T>, b1: seq<T>, a2: seq<T>, b2: seq<T>)
    requires IsSubseq(a1, b1) && IsSubseq(a2, b2)
    ensures IsSubseq(a1 + a2, b1 + b2)
    decreases |b1|
  {
    if b1 == [] {
      assert a1 == [];
      assert a1 + a2 == a2 && b1 + b2 == b2;
    } else if a1 == [] {
      assert a1 + a2 == a2;
      SubseqConcat([], b1[1..], a2, b2);
      assert b1[1..] + b2 == (b1 + b2)[1..];
    } else if a1[0] == b1[0] && IsSubseq(a1[1..], b1[1..]) {
      SubseqConcat(a1[1..], b1[1..], a2, b2);
      assert (a1 + a2)[1..] == a1[1..] + a2 && (b1 + b2)[1..] == b1[1..] + b2;
    } else {
      SubseqConcat(a1, b1[1..], a2, b2);
      assert (b1 + b2)[1..] == b1[1..] + b2;
    }
  }

  lemma {:induction false} SubseqDropFront<T>(a: seq<T>, b: seq<T>, k: nat)
    requires k <= |b| && IsSubseq(a, b[k..])
    ensures IsSubseq(a, b)
    decreases k
  {
    if k > 0 {
      assert b[1..][k - 1..] == b[k..];
      SubseqDropFront(a, b[1..], k - 1);
    }
  }

  lemma {:induction false} SubseqMember<T>(a: seq<T>, b: seq<T>, x: T)
    requires IsSubseq(a, b) && x in a
    ensures x in b
    decreases |b|
  {
    if a[0] == b[0] && IsSubseq(a[1..], b[1..]) {
      if x != a[0] { SubseqMember(a[1..], b[1..], x); }
    } else {
      SubseqMember(a, b[1..], x);
    }
  }

  /** Leaving elements out of a list without repeats gives no repeats. */
  lemma {:induction false} SubseqDistinct<T>(a: seq<T>, b: seq<T>)
    requires IsSubseq(a, b) && Distinct(b)
    ensures Distinct(a)
    decreases |b|
  {
    if a == [] {
    } else if a[0] == b[0] && IsSubseq(a[1..], b[1..]) {
      SubseqDistinct(a[1..], b[1..]);
      forall j | 0 < j < |a| ensures a[0] != a[j] {
        SubseqMember(a[1..], b[1..], a[j]);
      }
    } else {
      SubseqDistinct(a, b[1..]);
    }
  }
}
