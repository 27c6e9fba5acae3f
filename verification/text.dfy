/** ASCII stand-ins for the library routines the struct-naming code calls:
    unicode.IsLetter / unicode.IsDigit, strings.ToUpper, strings.Split and the
    English title caser of golang.org/x/text/cases. Characters are ASCII here:
    a letter is a-z or A-Z and a digit is 0-9. */
module Text {

  predicate IsLower(c: char) { 'a' <= c <= 'z' }
  predicate IsUpper(c: char) { 'A' <= c <= 'Z' }

  /** unicode.IsLetter on ASCII. No letter is a digit 0-9, and '_' is not a letter. */
  predicate IsLetter(c: char)
    ensures IsLetter(c) ==> !('0' <= c <= '9') && c != '_'
  {
    IsLower(c) || IsUpper(c)
  }

  /** unicode.IsDigit on ASCII. No digit is a letter, and '_' is not a digit. */
  predicate IsDigit(c: char)
    ensures IsDigit(c) ==> !IsLower(c) && !IsUpper(c) && c != '_'
  {
    '0' <= c <= '9'
  }

  predicate IsAlnum(c: char) { IsLetter(c) || IsDigit(c) }

  /** Every character of s is a letter or a digit. */
  predicate AllAlnum(s: string) { forall i :: 0 <= i < |s| ==> IsAlnum(s[i]) }

  /** Every character of s is a letter. */
  predicate AllLetters(s: string) { forall i :: 0 <= i < |s| ==> IsLetter(s[i]) }

  /** The case-folded form of one character: upper-case letters become lower-case. */
  function FoldChar(c: char): char
  {
    if IsUpper(c) then (c as int + 32) as char else c
  }

  /** a and b are the same string apart from the case of their letters. */
  predicate SameUpToCase(a: string, b: string)
  {
    |a| == |b| && forall i :: 0 <= i < |a| ==> FoldChar(a[i]) == FoldChar(b[i])
  }

  /** Two characters that fold alike are the same kind of character, and a
      digit or any other non-letter folds only to itself. */
  lemma FoldKind(a: char, b: char)
    requires FoldChar(a) == FoldChar(b)
    ensures IsLetter(a) <==> IsLetter(b)
    ensures IsDigit(a) <==> IsDigit(b)
    ensures !IsLetter(a) ==> a == b
  {
  }

  function UpperChar(c: char): (r: char)
    ensures FoldChar(r) == FoldChar(c)
    ensures !IsLower(r)
    ensures !IsLetter(c) ==> r == c
  {
    if IsLower(c) then (c as int - 32) as char else c
  }

  function LowerChar(c: char): (r: char)
    ensures FoldChar(r) == FoldChar(c)
    ensures !IsUpper(r)
    ensures !IsLetter(c) ==> r == c
  {
    FoldChar(c)
  }

  /** strings.ToUpper restricted to ASCII. */
  function ToUpper(s: string): (r: string)
    ensures |r| == |s|
  {
    if s == [] then [] else [UpperChar(s[0])] + ToUpper(s[1..])
  }

  /** Upper-casing changes only the case of letters, and leaves no lower-case letter. */
  lemma {:induction false} ToUpperSpec(s: string)
    ensures SameUpToCase(ToUpper(s), s)
    ensures forall i :: 0 <= i < |s| ==> !IsLower(ToUpper(s)[i])
  {
    if s != [] {
      ToUpperSpec(s[1..]);
      assert forall i :: 1 <= i < |s| ==> ToUpper(s)[i] == ToUpper(s[1..])[i - 1] && s[i] == s[1..][i - 1];
    }
  }

  function ToLower(s: string): (r: string)
    ensures |r| == |s|
  {
    if s == [] then [] else [LowerChar(s[0])] + ToLower(s[1..])
  }

  /** Lower-casing changes only the case of letters, and leaves no upper-case letter. */
  lemma {:induction false} ToLowerSpec(s: string)
    ensures SameUpToCase(ToLower(s), s)
    ensures forall i :: 0 <= i < |s| ==> !IsUpper(ToLower(s)[i])
  {
    if s != [] {
      ToLowerSpec(s[1..]);
      assert forall i :: 1 <= i < |s| ==> ToLower(s)[i] == ToLower(s[1..])[i - 1] && s[i] == s[1..][i - 1];
    }
  }

  /** No letter occurs in s before index i. */
  predicate NoLetterBefore(s: string, i: int)
  {
    forall j :: 0 <= j < i && j < |s| ==> !IsLetter(s[j])
  }

  /** The English title caser applied to one word: characters before the
      first letter are copied, the first letter is upper-cased and every later
      letter is lower-cased; digits are uncased and do not end the word. */
  function Title(s: string): (r: string)
    ensures |r| == |s|
  {
    if s == [] then []
    else if IsLetter(s[0]) then [UpperChar(s[0])] + ToLower(s[1..])
    else [s[0]] + Title(s[1..])
  }

  /** Title casing changes only the case of letters, and a letter comes out
      upper-case exactly when no letter precedes it. */
  lemma {:induction false} TitleSpec(s: string)
    ensures SameUpToCase(Title(s), s)
    ensures forall i :: 0 <= i < |s| && IsLetter(s[i]) ==> (IsUpper(Title(s)[i]) <==> NoLetterBefore(s, i))
  {
    if s == [] {
    } else if IsLetter(s[0]) {
      ToLowerSpec(s[1..]);
      var r := Title(s);
      assert forall i :: 1 <= i < |s| ==> r[i] == ToLower(s[1..])[i - 1] && s[i] == s[1..][i - 1];
      assert forall i :: 1 <= i < |s| ==> !NoLetterBefore(s, i);
    } else {
      TitleSpec(s[1..]);
      var r := Title(s);
      assert forall i :: 1 <= i < |s| ==> r[i] == Title(s[1..])[i - 1] && s[i] == s[1..][i - 1];
      forall i | 1 <= i < |s|
        ensures NoLetterBefore(s, i) <==> NoLetterBefore(s[1..], i - 1)
      {
        if NoLetterBefore(s[1..], i - 1) {
          forall j | 0 <= j < i && j < |s| ensures !IsLetter(s[j]) {
            if j > 0 { assert s[j] == s[1..][j - 1]; }
          }
        }
      }
    }
  }

  /** On a word made only of letters, title casing upper-cases the first
      letter and lower-cases the rest. */
  lemma TitleOfLetters(s: string)
    requires AllLetters(s) && s != []
    ensures IsUpper(Title(s)[0])
    ensures forall i :: 1 <= i < |s| ==> IsLower(Title(s)[i])
  {
    TitleSpec(s);
    var r := Title(s);
    forall i | 1 <= i < |s| ensures IsLower(r[i]) {
      assert !NoLetterBefore(s, i) by { assert IsLetter(s[0]); }
      FoldKind(r[i], s[i]);
    }
  }

  /** strings.Join with a one-character separator; a non-empty list of parts. */
  function Join(parts: seq<string>, sep: char): (r: string)
    requires |parts| >= 1
  {
    if |parts| == 1 then parts[0] else parts[0] + [sep] + Join(parts[1..], sep)
  }

  /** strings.Split with a one-character separator: always at least one part
      (the empty string gives one empty part). */
  function Split(s: string, sep: char): (parts: seq<string>)
    ensures |parts| >= 1
  {
    if s == [] then [[]]
    else
      var rest := Split(s[1..], sep);
      if s[0] == sep then [[]] + rest
      else [[s[0]] + rest[0]] + rest[1..]
  }

  /** No part of a split holds the separator. */
  lemma {:induction false} SplitPartsSepFree(s: string, sep: char)
    ensures forall k :: 0 <= k < |Split(s, sep)| ==> sep !in Split(s, sep)[k]
  {
    if s != [] {
      SplitPartsSepFree(s[1..], sep);
      var rest := Split(s[1..], sep);
      if s[0] == sep {
        assert forall k :: 1 <= k < |Split(s, sep)| ==> Split(s, sep)[k] == rest[k - 1];
      } else {
        assert forall k :: 1 <= k < |Split(s, sep)| ==> Split(s, sep)[k] == rest[k];
      }
    }
  }

  /** Joining the parts of a split gives back the string. */
  lemma {:induction false} JoinSplit(s: string, sep: char)
    ensures Join(Split(s, sep), sep) == s
  {
    if s != [] {
      JoinSplit(s[1..], sep);
      var rest := Split(s[1..], sep);
      if s[0] == sep {
        assert ([[]] + rest)[1..] == rest;
        assert Join([[]] + rest, sep) == [] + [sep] + Join(rest, sep);
      } else {
        JoinConsChar(s[0], rest, sep);
      }
      assert [s[0]] + s[1..] == s;
    }
  }

  /** Putting a character in front of the first part puts it in front of the join. */
  lemma JoinConsChar(c: char, parts: seq<string>, sep: char)
    requires |parts| >= 1
    ensures Join([[c] + parts[0]] + parts[1..], sep) == [c] + Join(parts, sep)
  {
    var q := [[c] + parts[0]] + parts[1..];
    if |parts| > 1 {
      assert q[1..] == parts[1..];
    }
  }

  /** Splitting a join of separator-free parts gives back the parts. */
  lemma {:induction false} SplitJoin(parts: seq<string>, sep: char)
    requires |parts| >= 1
    requires forall k :: 0 <= k < |parts| ==> sep !in parts[k]
    ensures Split(Join(parts, sep), sep) == parts
  {
    if |parts| == 1 {
      SplitNoSep(parts[0], sep);
    } else {
      SplitJoin(parts[1..], sep);
      SplitAppend(parts[0], Join(parts[1..], sep), sep);
      SplitNoSep(parts[0], sep);
      assert parts == [parts[0]] + parts[1..];
    }
  }

  lemma {:induction false} SplitNoSep(s: string, sep: char)
    requires sep !in s
    ensures Split(s, sep) == [s]
  {
    if s != [] {
      assert s[0] != sep && sep !in s[1..];
      SplitNoSep(s[1..], sep);
      assert [s[0]] + s[1..] == s;
    }
  }

  /** A separator splits a string into the parts on its left followed by the
      parts on its right. */
  lemma {:induction false} SplitAppend(x: string, y: string, sep: char)
    ensures Split(x + [sep] + y, sep) == Split(x, sep) + Split(y, sep)
  {
    var s := x + [sep] + y;
    if x == [] {
      assert s[1..] == y;
    } else {
      assert s[1..] == x[1..] + [sep] + y;
      SplitAppend(x[1..], y, sep);
    }
  }

  /** The letters and digits of s, in order. */
  function Alnums(s: string): (r: string)
    ensures |r| <= |s|
  {
    if s == [] then []
    else if IsAlnum(s[0]) then [s[0]] + Alnums(s[1..])
    else Alnums(s[1..])
  }

  /** What Alnums keeps is letters and digits only. */
  lemma {:induction false} AlnumsAllAlnum(s: string)
    ensures AllAlnum(Alnums(s))
  {
    if s != [] {
      AlnumsAllAlnum(s[1..]);
    }
  }

  lemma {:induction false} AlnumsAppend(a: string, b: string)
    ensures Alnums(a + b) == Alnums(a) + Alnums(b)
  {
    if a == [] {
      assert a + b == b;
    } else {
      assert (a + b)[0] == a[0];
      assert (a + b)[1..] == a[1..] + b;
      AlnumsAppend(a[1..], b);
    }
  }

  lemma {:induction false} AlnumsOfAlnum(s: string)
    requires AllAlnum(s)
    ensures Alnums(s) == s
  {
    if s != [] {
      AlnumsOfAlnum(s[1..]);
    }
  }

  /** Case-insensitive equality is preserved by concatenation. */
  lemma SameUpToCaseAppend(a: string, b: string, c: string, d: string)
    requires SameUpToCase(a, b) && SameUpToCase(c, d)
    ensures SameUpToCase(a + c, b + d)
  {
    forall i | 0 <= i < |a + c| ensures FoldChar((a + c)[i]) == FoldChar((b + d)[i]) {
      if i >= |a| {
        assert (a + c)[i] == c[i - |a|] && (b + d)[i] == d[i - |a|];
      }
    }
  }

  /** The images of the parts under f, laid end to end. */
  function ConcatMap(f: string -> string, parts: seq<string>): string
  {
    if parts == [] then [] else f(parts[0]) + ConcatMap(f, parts[1..])
  }

  lemma ConcatMapSingle(f: string -> string, x: string)
    ensures ConcatMap(f, [x]) == f(x)
  {
    assert [x][1..] == [];
    assert ConcatMap(f, [x]) == f(x) + ConcatMap(f, []);
  }

  lemma {:induction false} ConcatMapAppend(f: string -> string, p: seq<string>, q: seq<string>)
    ensures ConcatMap(f, p + q) == ConcatMap(f, p) + ConcatMap(f, q)
  {
    if p == [] {
      assert p + q == q;
    } else {
      assert (p + q)[1..] == p[1..] + q;
      ConcatMapAppend(f, p[1..], q);
    }
  }

  /** A function that keeps lengths keeps the length of the whole. */
  lemma {:induction false} ConcatMapLength(f: string -> string, parts: seq<string>)
    requires forall p :: |f(p)| == |p|
    ensures |ConcatMap(f, parts)| == |Concat(parts)|
  {
    if parts != [] {
      ConcatMapLength(f, parts[1..]);
    }
  }

  /** Concat is ConcatMap with the identity; it is kept as its own function
      because its unfolding involves no function application. */
  lemma {:induction false} ConcatIsConcatMapIdentity(parts: seq<string>)
    ensures Concat(parts) == ConcatMap(p => p, parts)
  {
    if parts != [] {
      ConcatIsConcatMapIdentity(parts[1..]);
    }
  }

  /** strings.Join with an empty separator. */
  function Concat(parts: seq<string>): string
  {
    if parts == [] then [] else parts[0] + Concat(parts[1..])
  }

  /** On a string made of letters, digits and a non-alphanumeric separator,
      the parts of the split laid end to end are the string's letters and digits. */
  lemma {:induction false} SplitConcat(s: string, sep: char)
    requires !IsAlnum(sep)
    requires forall i :: 0 <= i < |s| ==> IsAlnum(s[i]) || s[i] == sep
    ensures Concat(Split(s, sep)) == Alnums(s)
  {
    if s != [] {
      var tail := s[1..];
      assert forall i :: 0 <= i < |tail| ==> tail[i] == s[i + 1];
      SplitConcat(tail, sep);
      var rest := Split(tail, sep);
      if s[0] == sep {
        var parts := [[]] + rest;
        assert parts[1..] == rest;
        calc {
          Concat(Split(s, sep));
          Concat(parts);
          [] + Concat(rest);
          Alnums(tail);
          Alnums(s);
        }
      } else {
        var parts := [[s[0]] + rest[0]] + rest[1..];
        assert parts[1..] == rest[1..];
        calc {
          Concat(Split(s, sep));
          Concat(parts);
          ([s[0]] + rest[0]) + Concat(rest[1..]);
          [s[0]] + (rest[0] + Concat(rest[1..]));
          [s[0]] + Concat(rest);
          [s[0]] + Alnums(tail);
          Alnums(s);
        }
      }
    }
  }

  /** On such a string, every part of the split is letters and digits. */
  lemma {:induction false} SplitPartsAlnum(s: string, sep: char)
    requires !IsAlnum(sep)
    requires forall i :: 0 <= i < |s| ==> IsAlnum(s[i]) || s[i] == sep
    ensures forall k :: 0 <= k < |Split(s, sep)| ==> AllAlnum(Split(s, sep)[k])
  {
    if s != [] {
      var tail := s[1..];
      assert forall i :: 0 <= i < |tail| ==> tail[i] == s[i + 1];
      SplitPartsAlnum(tail, sep);
      var rest := Split(tail, sep);
      var parts := Split(s, sep);
      if s[0] == sep {
        assert forall k :: 1 <= k < |parts| ==> parts[k] == rest[k - 1];
      } else {
        var head := [s[0]] + rest[0];
        assert parts[0] == head;
        assert forall i :: 1 <= i < |head| ==> head[i] == rest[0][i - 1];
        assert forall k :: 1 <= k < |parts| ==> parts[k] == rest[k];
      }
    }
  }

  /** A string equal up to case to letters and digits is itself letters and digits. */
  lemma SameUpToCaseAlnum(a: string, b: string)
    requires SameUpToCase(a, b) && AllAlnum(b)
    ensures AllAlnum(a)
  {
    forall i | 0 <= i < |a| ensures IsAlnum(a[i]) {
      FoldKind(a[i], b[i]);
    }
  }

  /** A string without letters or digits has none at any position. */
  lemma {:induction false} NoAlnums(s: string)
    requires Alnums(s) == []
    ensures forall i :: 0 <= i < |s| ==> !IsAlnum(s[i])
  {
    if s != [] {
      NoAlnums(s[1..]);
      assert forall i :: 1 <= i < |s| ==> s[i] == s[1..][i - 1];
    }
  }

  /** Lower-casing leaves a string with no upper-case letter unchanged. */
  lemma {:induction false} ToLowerFixed(s: string)
    requires forall i :: 0 <= i < |s| ==> !IsUpper(s[i])
    ensures ToLower(s) == s
  {
    if s != [] {
      ToLowerFixed(s[1..]);
    }
  }

  /** Upper-casing leaves a string with no lower-case letter unchanged. */
  lemma {:induction false} ToUpperFixed(s: string)
    requires forall i :: 0 <= i < |s| ==> !IsLower(s[i])
    ensures ToUpper(s) == s
  {
    if s != [] {
      ToUpperFixed(s[1..]);
    }
  }
}
