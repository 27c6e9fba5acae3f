/** The entity struct record and the identifier normaliser that names it
    (internal/struct.go). */
module Structs {
  import opened Text

  /** The two fields of the generator's options that naming reads: the
      per-identifier rename map and the set of initialisms. */
  datatype Options = Options(rename: map<string, string>, initialisms: set<string>)

  /** A Go map lookup: a missing key reads as the empty string. */
  function RenameOf(options: Options, name: string): string
  {
    if name in options.rename then options.rename[name] else ""
  }

  /** A generated entity struct. The field type is left to the caller. */
  datatype Struct<F> = Struct(name: string, package: string, fields: seq<F>, comment: string)
  {
    /** The type name as written from another package: the name qualified by
        the package when there is one. */
    function Type(): (r: string)
      ensures |r| == |name| + (if package == "" then 0 else |package| + 1)
      ensures r[|r| - |name|..] == name
      ensures package != "" ==> r[..|package|] == package && r[|package|] == '.'
    {
      if package != "" then package + "." + name else name
    }
  }

  /** The index of the last '.' in t, or -1 when there is none. */
  function LastDot(t: string): (k: int)
    ensures -1 <= k < |t|
    ensures k >= 0 ==> t[k] == '.'
    ensures forall j :: k < j < |t| ==> t[j] != '.'
  {
    if t == [] then -1
    else if t[|t| - 1] == '.' then |t| - 1
    else LastDot(t[..|t| - 1])
  }

  /** Reads a possibly qualified type name back as (package, name). */
  function ParseType(t: string): (string, string)
  {
    var k := LastDot(t);
    if k < 0 then ("", t) else (t[..k], t[k + 1..])
  }

  /** A qualified type name determines its package and its name, provided the
      name itself holds no dot (a Go identifier never does). */
  lemma TypeRoundTrip<F>(s: Struct<F>)
    requires '.' !in s.name
    ensures ParseType(s.Type()) == (s.package, s.name)
  {
    var t := s.Type();
    if s.package == "" {
      assert forall j :: 0 <= j < |t| ==> t[j] != '.';
    } else {
      assert t[|s.package|] == '.';
      assert forall j :: |s.package| < j < |t| ==> t[j] == s.name[j - |s.package| - 1];
      assert LastDot(t) == |s.package|;
    }
  }

  /** The rune mapping that opens StructName: letters and digits are kept,
      every other character becomes '_'. */
  function Sanitize(s: string): (r: string)
    ensures |r| == |s|
  {
    if s == [] then []
    else [if IsAlnum(s[0]) then s[0] else '_'] + Sanitize(s[1..])
  }

  /** The mapping keeps every letter and digit in place and puts '_' at every
      other position. */
  lemma {:induction false} SanitizeSpec(s: string)
    ensures forall i :: 0 <= i < |s| && IsAlnum(s[i]) ==> Sanitize(s)[i] == s[i]
    ensures forall i :: 0 <= i < |s| && !IsAlnum(s[i]) ==> Sanitize(s)[i] == '_'
  {
    if s != [] {
      SanitizeSpec(s[1..]);
      assert forall i :: 1 <= i < |s| ==> Sanitize(s)[i] == Sanitize(s[1..])[i - 1] && s[i] == s[1..][i - 1];
    }
  }

  /** The casing of one segment: an initialism (looked up exactly as the
      segment is written) is upper-cased whole, any other segment is title-cased. */
  function CaseSegment(p: string, initialisms: set<string>): (r: string)
    ensures |r| == |p|
  {
    if p in initialisms then ToUpper(p) else Title(p)
  }

  /** A segment keeps its characters up to case; an initialism comes out with
      no lower-case letter; any other segment of letters comes out with its
      first letter upper-case and the rest lower-case. */
  lemma CaseSegmentSpec(p: string, initialisms: set<string>)
    ensures SameUpToCase(CaseSegment(p, initialisms), p)
    ensures p in initialisms ==> forall i :: 0 <= i < |p| ==> !IsLower(CaseSegment(p, initialisms)[i])
    ensures p !in initialisms && AllLetters(p) && p != [] ==>
              IsUpper(CaseSegment(p, initialisms)[0]) &&
              forall i :: 1 <= i < |p| ==> IsLower(CaseSegment(p, initialisms)[i])
  {
    if p in initialisms {
      ToUpperSpec(p);
    } else {
      TitleSpec(p);
      if AllLetters(p) && p != [] {
        TitleOfLetters(p);
      }
    }
  }

  /** The segments cased one by one and laid end to end. */
  function CaseAll(parts: seq<string>, initialisms: set<string>): (r: string)
    ensures |r| == |Concat(parts)|
  {
    ConcatMapLength((p: string) => CaseSegment(p, initialisms), parts);
    ConcatMap((p: string) => CaseSegment(p, initialisms), parts)
  }

  /** Casing the segments changes nothing but the case of their letters. */
  lemma {:induction false} CaseAllSameUpToCase(parts: seq<string>, initialisms: set<string>)
    ensures SameUpToCase(CaseAll(parts, initialisms), Concat(parts))
  {
    if parts != [] {
      assert CaseAll(parts, initialisms) == CaseSegment(parts[0], initialisms) + CaseAll(parts[1..], initialisms);
      CaseAllSameUpToCase(parts[1..], initialisms);
      CaseSegmentSpec(parts[0], initialisms);
      SameUpToCaseAppend(CaseSegment(parts[0], initialisms), parts[0], CaseAll(parts[1..], initialisms), Concat(parts[1..]));
    }
  }

  /** The name before the leading-digit fix-up: mapped, split on '_' and cased. */
  function Body(name: string, initialisms: set<string>): string
  {
    CaseAll(Split(Sanitize(name), '_'), initialisms)
  }

  /** The name StructName produces: the rename when it is non-empty, otherwise
      the cased segments with '_' put in front when they begin with a digit. */
  function Normalized(name: string, options: Options): (r: string)
    ensures RenameOf(options, name) != "" ==> r == RenameOf(options, name)
    ensures RenameOf(options, name) == "" ==> r == [] || !IsDigit(r[0])
  {
    var rename := RenameOf(options, name);
    if rename != "" then rename
    else
      var out := Body(name, options.initialisms);
      if |out| > 0 && IsDigit(out[0]) then "_" + out else out
  }

  /** StructName, step by step as the generator does it. */
  method StructName(name: string, options: Options) returns (r: string)
    ensures r == Normalized(name, options)
    ensures RenameOf(options, name) != "" ==> r == RenameOf(options, name)
  {
    var rename := RenameOf(options, name);
    if rename != "" {
      return rename;
    }
    var mapped := Sanitize(name);
    var parts := Split(mapped, '_');
    var out := "";
    var i := 0;
    while i < |parts|
      invariant 0 <= i <= |parts|
      invariant out == CaseAll(parts[..i], options.initialisms)
    {
      if parts[i] in options.initialisms {
        out := out + ToUpper(parts[i]);
      } else {
        out := out + Title(parts[i]);
      }
      CaseAllSnoc(parts[..i], parts[i], options.initialisms);
      assert parts[..i + 1] == parts[..i] + [parts[i]];
      i := i + 1;
    }
    assert parts[..i] == parts;
    if |out| > 0 && IsDigit(out[0]) {
      r := "_" + out;
    } else {
      r := out;
    }
  }

  /** One segment more adds its casing at the end. */
  lemma CaseAllSnoc(p: seq<string>, x: string, initialisms: set<string>)
    ensures CaseAll(p + [x], initialisms) == CaseAll(p, initialisms) + CaseSegment(x, initialisms)
  {
    CaseAllAppend(p, [x], initialisms);
    CaseAllSingle(x, initialisms);
  }

  lemma CaseAllSingle(x: string, initialisms: set<string>)
    ensures CaseAll([x], initialisms) == CaseSegment(x, initialisms)
  {
    ConcatMapSingle((p: string) => CaseSegment(p, initialisms), x);
  }

  lemma CaseAllAppend(p: seq<string>, q: seq<string>, initialisms: set<string>)
    ensures CaseAll(p + q, initialisms) == CaseAll(p, initialisms) + CaseAll(q, initialisms)
  {
    ConcatMapAppend((p: string) => CaseSegment(p, initialisms), p, q);
  }

  lemma {:induction false} SanitizeAppend(a: string, b: string)
    ensures Sanitize(a + b) == Sanitize(a) + Sanitize(b)
  {
    if a == [] {
      assert a + b == b;
    } else {
      assert (a + b)[1..] == a[1..] + b;
      SanitizeAppend(a[1..], b);
    }
  }

  lemma {:induction false} SanitizeAlnums(s: string)
    ensures Alnums(Sanitize(s)) == Alnums(s)
  {
    if s != [] {
      SanitizeAlnums(s[1..]);
      assert Sanitize(s)[1..] == Sanitize(s[1..]);
    }
  }

  /** Before the fix-up, the name is made of letters and digits only, and they
      are the input's letters and digits, in order, up to case. */
  lemma BodyLettersAndDigits(name: string, initialisms: set<string>)
    ensures AllAlnum(Body(name, initialisms))
    ensures SameUpToCase(Body(name, initialisms), Alnums(name))
  {
    var m := Sanitize(name);
    SanitizeSpec(name);
    SplitConcat(m, '_');
    SplitPartsAlnum(m, '_');
    AlnumsAllAlnum(name);
    CaseAllSameUpToCase(Split(m, '_'), initialisms);
    SanitizeAlnums(name);
    SameUpToCaseAlnum(Body(name, initialisms), Alnums(name));
  }

  /** Without a rename, the name holds letters and digits and at most one '_',
      at its head; it never begins with a digit; its letters and digits are the
      input's up to case; and the '_' is there exactly when the input's first
      letter-or-digit is a digit. */
  lemma NormalizedShape(name: string, options: Options)
    requires RenameOf(options, name) == ""
    ensures var r := Normalized(name, options);
      && (forall i :: 0 < i < |r| ==> IsAlnum(r[i]))
      && (|r| > 0 ==> r[0] == '_' || IsLetter(r[0]))
      && SameUpToCase(Alnums(r), Alnums(name))
      && (|r| > 0 && r[0] == '_' <==> Alnums(name) != [] && IsDigit(Alnums(name)[0]))
      && |r| == |Alnums(name)| + (if Alnums(name) != [] && IsDigit(Alnums(name)[0]) then 1 else 0)
  {
    var out := Body(name, options.initialisms);
    var a := Alnums(name);
    BodyLettersAndDigits(name, options.initialisms);
    AlnumsOfAlnum(out);
    if |out| > 0 {
      FoldKind(out[0], a[0]);
      if IsDigit(out[0]) {
        assert Normalized(name, options) == "_" + out;
        AlnumsAppend("_", out);
        assert Alnums("_") == [];
      }
    }
  }

  /** Without a rename the name holds no '.', so its qualified type name
      reads back as package and name. */
  lemma NormalizedTypeRoundTrip<F>(name: string, options: Options, package: string, fields: seq<F>, comment: string)
    requires RenameOf(options, name) == ""
    ensures var s := Struct(Normalized(name, options), package, fields, comment);
      ParseType(s.Type()) == (package, s.name)
  {
    var n := Normalized(name, options);
    NormalizedShape(name, options);
    assert '.' !in n by {
      forall i | 0 <= i < |n| ensures n[i] != '.' {
        if i > 0 { assert IsAlnum(n[i]); }
      }
    }
    TypeRoundTrip(Struct(n, package, fields, comment));
  }

  /** With nothing alphanumeric in it, an identifier normalises to "". */
  lemma NoLettersOrDigitsGivesEmpty(name: string, options: Options)
    requires RenameOf(options, name) == ""
    requires Alnums(name) == []
    ensures Normalized(name, options) == ""
  {
    NormalizedShape(name, options);
    var r := Normalized(name, options);
    assert Alnums(r) == [];
    NoAlnums(r);
  }

  /** An empty rename value is the same as no entry for the name. */
  lemma EmptyRenameIgnored(name: string, options: Options)
    requires name in options.rename && options.rename[name] == ""
    ensures Normalized(name, options) == Normalized(name, options.(rename := options.rename - {name}))
  {
    assert RenameOf(options.(rename := options.rename - {name}), name) == "";
  }

  /** A separator cuts the identifier into two halves that are named
      independently and laid end to end. */
  lemma BodySeparator(a: string, c: char, b: string, initialisms: set<string>)
    requires !IsAlnum(c)
    ensures Body(a + [c] + b, initialisms) == Body(a, initialisms) + Body(b, initialisms)
  {
    SanitizeAppend(a + [c], b);
    SanitizeAppend(a, [c]);
    assert Sanitize([c]) == ['_'];
    SplitAppend(Sanitize(a), Sanitize(b), '_');
    CaseAllAppend(Split(Sanitize(a), '_'), Split(Sanitize(b), '_'), initialisms);
  }

  lemma BodyEmpty(initialisms: set<string>)
    ensures Body("", initialisms) == ""
  {
    assert Split("", '_') == [""];
    CaseAllSingle("", initialisms);
  }

  /** Any non-alphanumeric separator names like '_' (so "a-b" names like "a_b"). */
  lemma AnySeparatorNamesAlike(a: string, c: char, b: string, initialisms: set<string>)
    requires !IsAlnum(c)
    ensures Body(a + [c] + b, initialisms) == Body(a + "_" + b, initialisms)
  {
    BodySeparator(a, c, b, initialisms);
    BodySeparator(a, '_', b, initialisms);
  }

  /** A run of two separators names like one (so "a__b" names like "a_b"). */
  lemma RepeatedSeparatorNamesAlike(a: string, c: char, d: char, b: string, initialisms: set<string>)
    requires !IsAlnum(c) && !IsAlnum(d)
    ensures Body(a + [c] + [d] + b, initialisms) == Body(a + [c] + b, initialisms)
  {
    calc {
      Body(a + [c] + [d] + b, initialisms);
      { BodySeparator(a + [c], d, b, initialisms); }
      Body(a + [c], initialisms) + Body(b, initialisms);
      { TrailingSeparatorNamesAlike(a, c, initialisms); }
      Body(a, initialisms) + Body(b, initialisms);
      { BodySeparator(a, c, b, initialisms); }
      Body(a + [c] + b, initialisms);
    }
  }

  /** A separator in front adds nothing (so "_a_b" names like "a_b"). */
  lemma LeadingSeparatorNamesAlike(c: char, s: string, initialisms: set<string>)
    requires !IsAlnum(c)
    ensures Body([c] + s, initialisms) == Body(s, initialisms)
  {
    BodyEmpty(initialisms);
    assert [] + [c] + s == [c] + s;
    BodySeparator([], c, s, initialisms);
  }

  /** A separator at the end adds nothing (so "a_b_" names like "a_b"). */
  lemma TrailingSeparatorNamesAlike(s: string, c: char, initialisms: set<string>)
    requires !IsAlnum(c)
    ensures Body(s + [c], initialisms) == Body(s, initialisms)
  {
    BodyEmpty(initialisms);
    assert s + [c] + [] == s + [c];
    BodySeparator(s, c, [], initialisms);
  }

  /** With no renames, "a-b", "a__b" and "_a_b_" all name like "a_b", for any
      non-alphanumeric characters in place of '-' and '_'. */
  lemma SeparatorVariantsNameAlike(a: string, b: string, c: char, d: char, initialisms: set<string>)
    requires !IsAlnum(c) && !IsAlnum(d)
    ensures var o := Options(map[], initialisms);
      && Normalized(a + [c] + b, o) == Normalized(a + "_" + b, o)
      && Normalized(a + [c] + [d] + b, o) == Normalized(a + "_" + b, o)
      && Normalized([c] + (a + "_" + b) + [d], o) == Normalized(a + "_" + b, o)
  {
    var m := a + "_" + b;
    AnySeparatorNamesAlike(a, c, b, initialisms);
    RepeatedSeparatorNamesAlike(a, c, d, b, initialisms);
    LeadingSeparatorNamesAlike(c, m + [d], initialisms);
    assert [c] + m + [d] == [c] + (m + [d]);
    TrailingSeparatorNamesAlike(m, d, initialisms);
  }

  /** A single word of letters and digits is cased as one segment. */
  lemma BodyOfWord(w: string, initialisms: set<string>)
    requires AllAlnum(w)
    ensures Body(w, initialisms) == CaseSegment(w, initialisms)
  {
    SanitizeSpec(w);
    assert Sanitize(w) == w;
    SplitNoSep(w, '_');
    CaseAllSingle(w, initialisms);
  }

  /** Words of letters and digits joined with '_' give their casings laid end to end. */
  lemma {:induction false} BodyOfWords(words: seq<string>, initialisms: set<string>)
    requires |words| >= 1
    requires forall k :: 0 <= k < |words| ==> AllAlnum(words[k])
    ensures Body(Join(words, '_'), initialisms) == CaseAll(words, initialisms)
  {
    if |words| == 1 {
      assert words == [words[0]];
      BodyOfWord(words[0], initialisms);
      CaseAllSingle(words[0], initialisms);
    } else {
      BodyOfWords(words[1..], initialisms);
      BodySeparator(words[0], '_', Join(words[1..], '_'), initialisms);
      BodyOfWord(words[0], initialisms);
      assert words == [words[0]] + words[1..];
      CaseAllAppend([words[0]], words[1..], initialisms);
      CaseAllSingle(words[0], initialisms);
    }
  }

  /** Two words of letters and digits joined by '_' are cased one by one. */
  lemma TwoWords(w1: string, w2: string, initialisms: set<string>)
    requires AllAlnum(w1) && AllAlnum(w2)
    ensures Body(w1 + "_" + w2, initialisms) == CaseSegment(w1, initialisms) + CaseSegment(w2, initialisms)
  {
    BodySeparator(w1, '_', w2, initialisms);
    BodyOfWord(w1, initialisms);
    BodyOfWord(w2, initialisms);
  }

  /** Title-casing a lower-case word upper-cases its first letter only. */
  lemma TitleOfLowerWord(w: string)
    requires w != [] && forall i :: 0 <= i < |w| ==> IsLower(w[i])
    ensures Title(w) == [UpperChar(w[0])] + w[1..]
  {
    ToLowerFixed(w[1..]);
  }

  /** A body that does not start with a digit is the name, when nothing renames it. */
  lemma NormalizedOfBody(name: string, initialisms: set<string>, body: string)
    requires Body(name, initialisms) == body
    requires body != [] && !IsDigit(body[0])
    ensures Normalized(name, Options(map[], initialisms)) == body
  {
    assert RenameOf(Options(map[], initialisms), name) == "";
  }

  /** With the initialism "id", "user_id" names "UserID".
      The literal is passed in through `name` so that the solver does not
      unfold it before the proof steps below. */
  lemma UserIdExample(name: string)
    requires name == "user_id"
    ensures Normalized(name, Options(map[], {"id"})) == "UserID"
  {
    var ini: set<string> := {"id"};
    assert name == "user" + "_" + "id";
    TwoWords("user", "id", ini);
    assert CaseSegment("user", ini) == "User" by { TitleOfLowerWord("user"); }
    assert CaseSegment("id", ini) == "ID" by { ToUpperFixed("D"); }
    NormalizedOfBody(name, ini, "UserID");
  }

  /** Without initialisms, "created_at" names "CreatedAt".
      The literal is passed in through `name` so that the solver does not
      unfold it before the proof steps below. */
  lemma CreatedAtExample(name: string)
    requires name == "created_at"
    ensures Normalized(name, Options(map[], {})) == "CreatedAt"
  {
    var ini: set<string> := {};
    assert name == "created" + "_" + "at";
    TwoWords("created", "at", ini);
    assert CaseSegment("created", ini) == "Created" by { TitleOfLowerWord("created"); }
    assert CaseSegment("at", ini) == "At" by { TitleOfLowerWord("at"); }
    NormalizedOfBody(name, ini, "CreatedAt");
  }

  /** A name whose first segment is a number gets one '_' in front.
      The literal is passed in through `name` so that the solver does not
      unfold it before the proof steps below. */
  lemma LeadingDigitExample(name: string)
    requires name == "1_user"
    ensures Normalized(name, Options(map[], {})) == "_1User"
  {
    var ini: set<string> := {};
    assert name == "1" + "_" + "user";
    TwoWords("1", "user", ini);
    assert CaseSegment("1", ini) == "1";
    assert CaseSegment("user", ini) == "User" by { TitleOfLowerWord("user"); }
  }

  /** The initialism lookup is exact: with the initialism "id", the segment
      "ID" is not found and is title-cased, so "USER_ID" names "UserId".
      The literal is passed in through `name` so that the solver does not
      unfold it before the proof steps below. */
  lemma InitialismLookupIsExact(name: string)
    requires name == "USER_ID"
    ensures Normalized(name, Options(map[], {"id"})) == "UserId"
  {
    var ini: set<string> := {"id"};
    assert name == "USER" + "_" + "ID";
    TwoWords("USER", "ID", ini);
    assert CaseSegment("USER", ini) == "User" by { ToLowerFixed("ser"); }
    assert CaseSegment("ID", ini) == "Id" by { ToLowerFixed("d"); }
    NormalizedOfBody(name, ini, "UserId");
  }

  /** A rename is returned as written, even one the digit rule would change. */
  lemma RenameExample()
    ensures Normalized("x", Options(map["x" := "1abc"], {"x"})) == "1abc"
  {
  }
}
