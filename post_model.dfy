/** The post and comment documents, their schema bounds and defaults, and the
    pre-save hook that derives a post's slug and excerpt. */
module PostModel {
  import opened Common
  import opened Text

  /** A comment embedded in a post: a display name, the text and the owning user. */
  datatype Comment = Comment(id: CommentId, author: string, content: string, user: UserId)

  /** A post document as stored. An empty excerpt or slug stands for an unset one. */
  datatype Post = Post(
    title: string,
    slug: string,
    content: string,
    excerpt: string,
    author: UserId,
    category: Option<CategoryId>,
    tags: seq<string>,
    featuredImage: string,
    published: bool,
    views: nat,
    comments: seq<Comment>)

  /** The post fields a create or update request supplies. An empty title,
      content or excerpt is a missing one, as in the request handlers' truthiness
      tests; the other fields are None when the request leaves them out. */
  datatype PostInput = PostInput(
    title: string,
    content: string,
    excerpt: string,
    category: Option<CategoryId>,
    tags: Option<seq<string>>,
    featuredImage: Option<string>,
    published: Option<bool>)

  // Schema bounds.
  const TitleMin := 3
  const TitleMax := 200
  const ContentMin := 10
  const ExcerptMax := 300
  const CommentMin := 1
  const CommentMax := 500

  // Excerpt derivation: the first ExcerptSource characters, then an ellipsis.
  const ExcerptSource := 150
  const Ellipsis := "..."

  // ---------------------------------------------------------------- slug

  /** The characters a slug keeps: [a-z0-9]. */
  predicate IsSlugAlnum(c: char) {
    ('a' <= c <= 'z') || ('0' <= c <= '9')
  }

  /** String.prototype.toLowerCase on one character, as far as a slug can tell:
      ASCII capitals, and the two non-ASCII characters whose lower case
      contains an ASCII letter. Every other character is not in [a-z0-9]
      either before or after lowering, so it is left as it is. */
  function LowerChar(c: char): string {
    if 'A' <= c <= 'Z' then [(c as int + 32) as char]
    else if c == '\U{130}' then ['i', '\U{307}']
    else if c == '\U{212A}' then ['k']
    else [c]
  }

  function Lower(s: string): string {
    if s == [] then [] else LowerChar(s[0]) + Lower(s[1..])
  }

  /** Drops the run of non-[a-z0-9] characters that starts s. */
  function SkipSeparators(s: string): (r: string)
    ensures |r| <= |s|
    ensures r == [] || IsSlugAlnum(r[0])
  {
    if s != [] && !IsSlugAlnum(s[0]) then SkipSeparators(s[1..]) else s
  }

  /** What SkipSeparators leaves is a suffix of its argument. */
  lemma {:induction false} SkipIsSuffix(s: string)
    ensures SkipSeparators(s) == s[|s| - |SkipSeparators(s)|..]
  {
    if s != [] && !IsSlugAlnum(s[0]) {
      SkipIsSuffix(s[1..]);
      SuffixOfTail(s, SkipSeparators(s));
    }
  }

  predicate InSlugAlphabet(s: string) {
    forall i :: 0 <= i < |s| ==> IsSlugAlnum(s[i]) || s[i] == '-'
  }

  ghost predicate NoDoubleHyphen(s: string) {
    forall i, j :: 0 <= i < j < |s| && j == i + 1 ==> s[i] != '-' || s[j] != '-'
  }

  predicate NoEdgeHyphen(s: string) {
    s == [] || (s[0] != '-' && s[|s| - 1] != '-')
  }

  /** A well-formed slug: [a-z0-9] words joined by single hyphens. */
  ghost predicate IsSlug(s: string) {
    InSlugAlphabet(s) && NoDoubleHyphen(s) && NoEdgeHyphen(s)
  }

  /** replace(/[^a-z0-9]+/g, '-'): every maximal run of characters outside
      [a-z0-9] becomes one hyphen. */
  function Hyphenate(s: string): (r: string)
    decreases |s|
    ensures s == [] <==> r == []
    ensures s != [] && IsSlugAlnum(s[0]) ==> r[0] == s[0]
    ensures s != [] && !IsSlugAlnum(s[0]) ==> r[0] == '-'
  {
    if s == [] then []
    else if IsSlugAlnum(s[0]) then [s[0]] + Hyphenate(s[1..])
    else ['-'] + Hyphenate(SkipSeparators(s[1..]))
  }

  /** Hyphenation leaves text in [a-z0-9-] without "--". */
  lemma {:induction false} HyphenateIsSlugText(s: string)
    decreases |s|
    ensures InSlugAlphabet(Hyphenate(s)) && NoDoubleHyphen(Hyphenate(s))
  {
    if s != [] {
      var t := if IsSlugAlnum(s[0]) then s[1..] else SkipSeparators(s[1..]);
      HyphenateIsSlugText(t);
      var h := Hyphenate(t);
      var r := Hyphenate(s);
      assert r == [r[0]] + h;
      assert r[0] == '-' ==> h == [] || IsSlugAlnum(h[0]);
      forall i, j | 0 <= i < j < |r| && j == i + 1 ensures r[i] != '-' || r[j] != '-' {
        if i > 0 {
          assert r[i] == h[i - 1] && r[j] == h[j - 1];
        }
      }
    }
  }

  /** The /^-+/ half of the final replace. */
  function StripLeadingHyphens(s: string): (r: string)
    ensures |r| <= |s|
    ensures r == [] || r[0] != '-'
  {
    if s != [] && s[0] == '-' then StripLeadingHyphens(s[1..]) else s
  }

  lemma {:induction false} StripLeadingIsSuffix(s: string)
    ensures StripLeadingHyphens(s) == s[|s| - |StripLeadingHyphens(s)|..]
  {
    if s != [] && s[0] == '-' {
      StripLeadingIsSuffix(s[1..]);
      SuffixOfTail(s, StripLeadingHyphens(s));
    }
  }

  /** The /-+$/ half of the final replace. */
  function StripTrailingHyphens(s: string): (r: string)
    ensures |r| <= |s|
    ensures r == [] || r[|r| - 1] != '-'
  {
    if s != [] && s[|s| - 1] == '-' then StripTrailingHyphens(s[..|s| - 1]) else s
  }

  lemma {:induction false} StripTrailingIsPrefix(s: string)
    ensures StripTrailingHyphens(s) == s[..|StripTrailingHyphens(s)|]
  {
    if s != [] && s[|s| - 1] == '-' {
      StripTrailingIsPrefix(s[..|s| - 1]);
      PrefixOfInit(s, StripTrailingHyphens(s));
    }
  }

  /** The leading strip removes hyphens only. */
  lemma {:induction false} StripLeadingDropsHyphens(s: string)
    ensures forall i :: 0 <= i < |s| - |StripLeadingHyphens(s)| ==> s[i] == '-'
  {
    if s != [] && s[0] == '-' {
      StripLeadingDropsHyphens(s[1..]);
      forall i | 1 <= i < |s| - |StripLeadingHyphens(s)| ensures s[i] == '-' {
        assert s[i] == s[1..][i - 1];
      }
    }
  }

  /** The trailing strip removes hyphens only. */
  lemma {:induction false} StripTrailingDropsHyphens(s: string)
    ensures forall i :: |StripTrailingHyphens(s)| <= i < |s| ==> s[i] == '-'
  {
    if s != [] && s[|s| - 1] == '-' {
      StripTrailingDropsHyphens(s[..|s| - 1]);
    }
  }

  /** The slice of s between its leading and trailing hyphens; a slice keeps
      the alphabet and the absence of double hyphens. */
  function StripHyphens(s: string): (r: string)
    ensures NoEdgeHyphen(r)
    ensures InSlugAlphabet(s) ==> InSlugAlphabet(r)
    ensures NoDoubleHyphen(s) ==> NoDoubleHyphen(r)
  {
    var t := StripLeadingHyphens(s);
    var r := StripTrailingHyphens(t);
    StripLeadingIsSuffix(s);
    StripTrailingIsPrefix(t);
    SliceOfSuffix(s, t, r);
    SliceKeepsSlugText(s, |s| - |t|, |s| - |t| + |r|);
    r
  }

  /** A prefix of a suffix of s is a slice of s. */
  lemma SliceOfSuffix(s: string, t: string, r: string)
    requires |t| <= |s| && t == s[|s| - |t|..]
    requires |r| <= |t| && r == t[..|r|]
    ensures r == s[|s| - |t|..|s| - |t| + |r|]
  {
    assert forall i :: 0 <= i < |r| ==> r[i] == s[|s| - |t| + i];
  }

  /** A slice keeps the slug alphabet and the absence of double hyphens. */
  lemma SliceKeepsSlugText(s: string, a: nat, b: nat)
    requires a <= b <= |s|
    ensures InSlugAlphabet(s) ==> InSlugAlphabet(s[a..b])
    ensures NoDoubleHyphen(s) ==> NoDoubleHyphen(s[a..b])
  {
    var r := s[a..b];
    assert forall i :: 0 <= i < |r| ==> r[i] == s[a + i];
  }

  /** The number of hyphens at the start of s. */
  function LeadingHyphens(s: string): nat {
    |s| - |StripLeadingHyphens(s)|
  }

  /** StripHyphens keeps the slice of s between its leading and its trailing
      run of hyphens: only hyphens lie outside that slice, and the slice
      neither starts nor ends with one. */
  lemma StripHyphensIsSlice(s: string)
    ensures LeadingHyphens(s) + |StripHyphens(s)| <= |s|
    ensures StripHyphens(s) == s[LeadingHyphens(s)..LeadingHyphens(s) + |StripHyphens(s)|]
    ensures forall i :: 0 <= i < LeadingHyphens(s) ==> s[i] == '-'
    ensures forall i :: LeadingHyphens(s) + |StripHyphens(s)| <= i < |s| ==> s[i] == '-'
    ensures NoEdgeHyphen(StripHyphens(s))
  {
    var t := StripLeadingHyphens(s);
    var r := StripTrailingHyphens(t);
    var a := |s| - |t|;
    StripLeadingIsSuffix(s);
    StripTrailingIsPrefix(t);
    StripLeadingDropsHyphens(s);
    StripTrailingDropsHyphens(t);
    SliceOfSuffix(s, t, r);
    forall i | a + |r| <= i < |s| ensures s[i] == '-' {
      assert s[i] == t[i - a];
    }
  }

  /** The slug the pre-save hook derives from a title. */
  function Slugify(title: string): (r: string)
    ensures IsSlug(r)
  {
    HyphenateIsSlugText(Lower(title));
    StripHyphens(Hyphenate(Lower(title)))
  }

  /** The [a-z0-9] characters of s, in order. */
  function Alnums(s: string): string {
    if s == [] then [] else (if IsSlugAlnum(s[0]) then [s[0]] else []) + Alnums(s[1..])
  }

  lemma {:induction false} AlnumsOfSeparators(s: string)
    ensures Alnums(SkipSeparators(s)) == Alnums(s)
  {
    if s != [] && !IsSlugAlnum(s[0]) {
      AlnumsOfSeparators(s[1..]);
    }
  }

  lemma {:induction false} AlnumsOfHyphenate(s: string)
    decreases |s|
    ensures Alnums(Hyphenate(s)) == Alnums(s)
  {
    if s == [] {
    } else if IsSlugAlnum(s[0]) {
      AlnumsOfHyphenate(s[1..]);
      assert ([s[0]] + Hyphenate(s[1..]))[1..] == Hyphenate(s[1..]);
    } else {
      var rest := SkipSeparators(s[1..]);
      AlnumsOfHyphenate(rest);
      AlnumsOfSeparators(s[1..]);
      assert (['-'] + Hyphenate(rest))[1..] == Hyphenate(rest);
    }
  }

  lemma {:induction false} AlnumsOfStripLeading(s: string)
    ensures Alnums(StripLeadingHyphens(s)) == Alnums(s)
  {
    if s != [] && s[0] == '-' {
      AlnumsOfStripLeading(s[1..]);
    }
  }

  /** The first character of a string counts on its own. */
  lemma AlnumsOfCons(c: char, t: string)
    ensures Alnums([c] + t) == (if IsSlugAlnum(c) then [c] else []) + Alnums(t)
  {
    assert ([c] + t)[0] == c && ([c] + t)[1..] == t;
  }

  lemma {:induction false} AlnumsOfAppend(a: string, b: string)
    ensures Alnums(a + b) == Alnums(a) + Alnums(b)
  {
    if a == [] {
      assert a + b == b;
    } else {
      var head := if IsSlugAlnum(a[0]) then [a[0]] else [];
      AlnumsOfAppend(a[1..], b);
      AlnumsOfCons(a[0], a[1..] + b);
      AlnumsOfCons(a[0], a[1..]);
      assert [a[0]] + (a[1..] + b) == a + b;
      assert [a[0]] + a[1..] == a;
      assert head + (Alnums(a[1..]) + Alnums(b)) == (head + Alnums(a[1..])) + Alnums(b);
    }
  }

  lemma {:induction false} AlnumsOfStripTrailing(s: string)
    decreases |s|
    ensures Alnums(StripTrailingHyphens(s)) == Alnums(s)
  {
    if s != [] && s[|s| - 1] == '-' {
      var init := s[..|s| - 1];
      AlnumsOfStripTrailing(init);
      AlnumsOfAppend(init, ['-']);
      assert init + ['-'] == s;
    }
  }

  /** Slug derivation loses nothing but separators: the letters and digits of
      the lowered title all survive, in order. */
  lemma SlugKeepsAlnums(title: string)
    ensures Alnums(Slugify(title)) == Alnums(Lower(title))
  {
    var h := Hyphenate(Lower(title));
    AlnumsOfHyphenate(Lower(title));
    AlnumsOfStripLeading(h);
    AlnumsOfStripTrailing(StripLeadingHyphens(h));
  }

  /** A title yields the empty slug exactly when it has no ASCII letter or digit. */
  lemma SlugEmptyIff(title: string)
    ensures Slugify(title) == [] <==> Alnums(Lower(title)) == []
  {
    SlugKeepsAlnums(title);
    var s := Slugify(title);
    if s != [] {
      assert IsSlugAlnum(s[0]);
      assert Alnums(s) == [s[0]] + Alnums(s[1..]);
    }
  }

  lemma {:induction false} LowerKeepsSlugText(s: string)
    requires InSlugAlphabet(s)
    ensures Lower(s) == s
  {
    if s != [] {
      LowerKeepsSlugText(s[1..]);
    }
  }

  lemma {:induction false} HyphenateKeepsSlugText(s: string)
    requires InSlugAlphabet(s) && NoDoubleHyphen(s)
    ensures Hyphenate(s) == s
  {
    if s != [] {
      HyphenateKeepsSlugText(s[1..]);
      if !IsSlugAlnum(s[0]) {
        assert s[1..] == [] || IsSlugAlnum(s[1]);
        assert SkipSeparators(s[1..]) == s[1..];
      }
    }
  }

  /** A run of characters outside [a-z0-9]. */
  predicate NoSlugAlnum(s: string) {
    forall i :: 0 <= i < |s| ==> !IsSlugAlnum(s[i])
  }

  /** A run of separators in front of a letter or digit (or of the end) is
      skipped entirely. */
  lemma {:induction false} SkipWholeRun(sep: string, b: string)
    requires NoSlugAlnum(sep)
    requires b == [] || IsSlugAlnum(b[0])
    ensures SkipSeparators(sep + b) == b
  {
    if sep == [] {
      assert sep + b == b;
    } else {
      assert (sep + b)[0] == sep[0];
      assert (sep + b)[1..] == sep[1..] + b;
      SkipWholeRun(sep[1..], b);
    }
  }

  /** Skipping stops inside s when s holds a letter or digit past its
      leading separators, so what follows s is untouched. */
  lemma {:induction false} SkipStopsEarly(s: string, b: string)
    requires SkipSeparators(s) != []
    ensures SkipSeparators(s + b) == SkipSeparators(s) + b
  {
    if !IsSlugAlnum(s[0]) {
      assert (s + b)[0] == s[0];
      assert (s + b)[1..] == s[1..] + b;
      SkipStopsEarly(s[1..], b);
    }
  }

  /** Hyphenation turns a run of separators standing between two kept
      characters (or at an end next to one) into exactly one hyphen, and
      treats the two sides independently. */
  lemma {:induction false} HyphenateJoin(a: string, sep: string, b: string)
    requires a == [] || IsSlugAlnum(a[|a| - 1])
    requires sep != [] && NoSlugAlnum(sep)
    requires b == [] || IsSlugAlnum(b[0])
    decreases |a|
    ensures Hyphenate(a + sep + b) == Hyphenate(a) + "-" + Hyphenate(b)
  {
    if a == [] {
      JoinAfterNothing(sep, b);
      assert a + sep + b == sep + b;
    } else if IsSlugAlnum(a[0]) {
      assert a[1..] == [] || a[1..][|a[1..]| - 1] == a[|a| - 1];
      HyphenateJoin(a[1..], sep, b);
      JoinAfterAlnum(a, sep, b);
    } else {
      var rest := a[1..];
      assert rest != [] && rest[|rest| - 1] == a[|a| - 1];
      SkipWholeRunStops(rest);
      var k := SkipSeparators(rest);
      SkipIsSuffix(rest);
      assert k[|k| - 1] == rest[|rest| - 1];
      HyphenateJoin(k, sep, b);
      JoinAfterSeparator(a, sep, b);
    }
  }

  /** The base case of HyphenateJoin: a leading run becomes one hyphen. */
  lemma JoinAfterNothing(sep: string, b: string)
    requires sep != [] && NoSlugAlnum(sep)
    requires b == [] || IsSlugAlnum(b[0])
    ensures Hyphenate(sep + b) == "-" + Hyphenate(b)
  {
    var x := sep + b;
    assert x[0] == sep[0];
    assert x[1..] == sep[1..] + b;
    SkipWholeRun(sep[1..], b);
  }

  /** The step of HyphenateJoin over a kept first character. */
  lemma JoinAfterAlnum(a: string, sep: string, b: string)
    requires a != [] && IsSlugAlnum(a[0])
    requires Hyphenate(a[1..] + sep + b) == Hyphenate(a[1..]) + "-" + Hyphenate(b)
    ensures Hyphenate(a + sep + b) == Hyphenate(a) + "-" + Hyphenate(b)
  {
    var x := a + sep + b;
    assert x[0] == a[0];
    assert x[1..] == a[1..] + sep + b;
    ConsJoin([a[0]], Hyphenate(a[1..]), Hyphenate(b));
  }

  /** The step of HyphenateJoin over a leading separator run of a. */
  lemma JoinAfterSeparator(a: string, sep: string, b: string)
    requires a != [] && !IsSlugAlnum(a[0]) && SkipSeparators(a[1..]) != []
    requires Hyphenate(SkipSeparators(a[1..]) + sep + b) == Hyphenate(SkipSeparators(a[1..])) + "-" + Hyphenate(b)
    ensures Hyphenate(a + sep + b) == Hyphenate(a) + "-" + Hyphenate(b)
  {
    HyphenateAfterSeparator(a, sep, b);
    ConsJoin(['-'], Hyphenate(SkipSeparators(a[1..])), Hyphenate(b));
  }

  /** A leading separator run of a, which holds a letter or digit after it,
      becomes one hyphen whatever follows a. */
  lemma HyphenateAfterSeparator(a: string, sep: string, b: string)
    requires a != [] && !IsSlugAlnum(a[0]) && SkipSeparators(a[1..]) != []
    ensures Hyphenate(a + sep + b) == ['-'] + Hyphenate(SkipSeparators(a[1..]) + sep + b)
  {
    var y := sep + b;
    var x := a + sep + b;
    var k := SkipSeparators(a[1..]);
    assert x == a + y;
    assert x[0] == a[0] && x[1..] == a[1..] + y;
    SkipStopsEarly(a[1..], y);
    assert k + y == k + sep + b;
  }

  /** Regrouping a head, a left side, a hyphen and a right side. */
  lemma ConsJoin(h: string, l: string, r: string)
    ensures h + (l + "-" + r) == (h + l) + "-" + r
  {
  }

  /** A string that ends in a letter or digit is not skipped away. */
  lemma {:induction false} SkipWholeRunStops(s: string)
    requires s != [] && IsSlugAlnum(s[|s| - 1])
    ensures SkipSeparators(s) != []
  {
    if !IsSlugAlnum(s[0]) {
      assert s[1..][|s[1..]| - 1] == s[|s| - 1];
      SkipWholeRunStops(s[1..]);
    }
  }

  /** Every well-formed slug is its own slug. */
  lemma SlugOfSlug(s: string)
    requires IsSlug(s)
    ensures Slugify(s) == s
  {
    LowerKeepsSlugText(s);
    HyphenateKeepsSlugText(s);
  }

  /** Slug derivation is idempotent. */
  lemma SlugIdempotent(title: string)
    ensures Slugify(Slugify(title)) == Slugify(title)
  {
    SlugOfSlug(Slugify(title));
  }

  /** Lowering works character by character. */
  lemma {:induction false} LowerAppend(a: string, b: string)
    ensures Lower(a + b) == Lower(a) + Lower(b)
  {
    if a == [] {
      assert a + b == b;
    } else {
      var x := a + b;
      assert x[0] == a[0] && x[1..] == a[1..] + b;
      LowerAppend(a[1..], b);
      AppendAssoc(LowerChar(a[0]), Lower(a[1..]), Lower(b));
    }
  }

  lemma AppendAssoc(p: string, q: string, r: string)
    ensures p + (q + r) == (p + q) + r
  {
  }

  /** Lowering three pieces lowers each. */
  lemma LowerJoin(t1: string, sep: string, t2: string)
    ensures Lower(t1 + sep + t2) == Lower(t1) + Lower(sep) + Lower(t2)
  {
    LowerAppend(t1 + sep, t2);
    LowerAppend(t1, sep);
  }

  /** A slug, a separator run and a slug hyphenate to the slugs joined by
      one hyphen. */
  lemma HyphenateSlugJoin(w1: string, l: string, w2: string)
    requires IsSlug(w1) && w1 != [] && IsSlug(w2) && w2 != []
    requires l != [] && NoSlugAlnum(l)
    ensures Hyphenate(w1 + l + w2) == w1 + "-" + w2
  {
    assert w1[|w1| - 1] != '-' && w2[0] != '-';
    HyphenateJoin(w1, l, w2);
    HyphenateKeepsSlugText(w1);
    HyphenateKeepsSlugText(w2);
  }

  /** Two non-empty slugs joined by a hyphen have no hyphen to strip. */
  lemma StripSlugJoin(w1: string, w2: string)
    requires IsSlug(w1) && w1 != [] && IsSlug(w2) && w2 != []
    ensures StripHyphens(w1 + "-" + w2) == w1 + "-" + w2
  {
    var x := w1 + "-" + w2;
    assert x[0] == w1[0] && x[|x| - 1] == w2[|w2| - 1];
    assert StripLeadingHyphens(x) == x;
    assert StripTrailingHyphens(x) == x;
  }

  /** Two words whose lowering is a slug, with a run of separators between
      them (a run that holds no letter or digit even once lowered), give the
      two lowered words joined by exactly one hyphen: "Hello World" and
      "hello -- world" both give "hello-world". */
  lemma SlugJoin(t1: string, sep: string, t2: string)
    requires IsSlug(Lower(t1)) && Lower(t1) != [] && IsSlug(Lower(t2)) && Lower(t2) != []
    requires sep != [] && NoSlugAlnum(Lower(sep))
    ensures Slugify(t1 + sep + t2) == Lower(t1) + "-" + Lower(t2)
  {
    var w1, l, w2 := Lower(t1), Lower(sep), Lower(t2);
    assert l != [] by {
      assert |LowerChar(sep[0])| >= 1;
    }
    LowerJoin(t1, sep, t2);
    HyphenateSlugJoin(w1, l, w2);
    StripSlugJoin(w1, w2);
    var h := Hyphenate(w1 + l + w2);
    assert Slugify(t1 + sep + t2) == StripHyphens(h);
  }

  // ------------------------------------------------------------- excerpt

  function Min(a: int, b: int): int {
    if a <= b then a else b
  }

  /** The excerpt derived from the content: a prefix of at most 150
      characters followed by "...", so always within the excerpt bound. */
  function DeriveExcerpt(content: string): (r: string)
    ensures |r| == Min(|content|, ExcerptSource) + |Ellipsis| <= ExcerptMax
    ensures r[..|r| - |Ellipsis|] <= content
    ensures r[|r| - |Ellipsis|..] == Ellipsis
  {
    content[..Min(|content|, ExcerptSource)] + Ellipsis
  }

  // ---------------------------------------------------------- validation

  predicate ValidComment(c: Comment) {
    |c.author| >= 1 && CommentMin <= |c.content| <= CommentMax
  }

  /** The schema's validators: title (stored trimmed) 3..200 characters,
      content at least 10, excerpt at most 300, a category, valid comments. */
  predicate ValidPost(p: Post) {
    && TitleMin <= |p.title| <= TitleMax
    && |p.content| >= ContentMin
    && |p.excerpt| <= ExcerptMax
    && p.category.Some?
    && forall i :: 0 <= i < |p.comments| ==> ValidComment(p.comments[i])
  }

  predicate CommentIdsDistinct(cs: seq<Comment>) {
    forall i, j :: 0 <= i < j < |cs| ==> cs[i].id != cs[j].id
  }

  /** What every stored post satisfies: it passed validation, its slug is a
      well-formed slug, it has an excerpt, and its comment ids are distinct. */
  ghost predicate Stored(p: Post) {
    && ValidPost(p)
    && IsSlug(p.slug)
    && p.excerpt != ""
    && CommentIdsDistinct(p.comments)
  }

  // ------------------------------------------------------ pre-save hook

  /** The pre-save hook. It recomputes the slug when the title was modified
      and fills an empty excerpt from non-empty content; it never overwrites a
      non-empty excerpt and changes no other field. */
  function PreSave(doc: Post, titleModified: bool): (r: Post)
    ensures r.(slug := doc.slug, excerpt := doc.excerpt) == doc
    ensures titleModified ==> r.slug == Slugify(doc.title) && IsSlug(r.slug)
    ensures !titleModified ==> r.slug == doc.slug
    ensures doc.excerpt != "" ==> r.excerpt == doc.excerpt
    ensures doc.excerpt == "" && doc.content != "" ==> r.excerpt == DeriveExcerpt(doc.content)
    ensures doc.excerpt == "" && doc.content == "" ==> r.excerpt == ""
    ensures doc.content != "" ==> r.excerpt != ""
    ensures |doc.excerpt| <= ExcerptMax ==> |r.excerpt| <= ExcerptMax
  {
    var slug := if titleModified then Slugify(doc.title) else doc.slug;
    var excerpt := if doc.excerpt == "" && doc.content != "" then DeriveExcerpt(doc.content) else doc.excerpt;
    doc.(slug := slug, excerpt := excerpt)
  }

  /** A document that passed validation comes out of the hook as a post that
      can be stored, provided its slug was already well formed whenever the
      title was not modified. */
  lemma SavedIsStored(doc: Post, titleModified: bool)
    requires ValidPost(doc) && CommentIdsDistinct(doc.comments)
    requires titleModified || IsSlug(doc.slug)
    ensures Stored(PreSave(doc, titleModified))
  {
  }

  /** Saving a stored post again without touching its title changes nothing:
      the slug is stable and the excerpt is kept. */
  lemma ResaveKeepsPost(p: Post)
    requires Stored(p)
    ensures PreSave(p, false) == p
  {
  }

  // ------------------------------------------------ creation and defaults

  /** The tag list's trim setter: every tag trimmed, in order. */
  function TrimAll(tags: seq<string>): (r: seq<string>)
    ensures |r| == |tags|
  {
    if tags == [] then [] else [Trim(tags[0])] + TrimAll(tags[1..])
  }

  /** Each tag is trimmed where it stands. */
  lemma {:induction false} TrimAllTrimsEach(tags: seq<string>)
    ensures forall i :: 0 <= i < |tags| ==> TrimAll(tags)[i] == Trim(tags[i])
  {
    if tags != [] {
      TrimAllTrimsEach(tags[1..]);
      var r := TrimAll(tags);
      assert r[1..] == TrimAll(tags[1..]);
      forall i | 1 <= i < |tags| ensures r[i] == Trim(tags[i]) {
        assert r[i] == r[1..][i - 1] && tags[i] == tags[1..][i - 1];
      }
    }
  }

  lemma {:induction false} TrimAllIdempotent(tags: seq<string>)
    ensures TrimAll(TrimAll(tags)) == TrimAll(tags)
  {
    if tags != [] {
      var t := TrimAll(tags);
      TrimAllIdempotent(tags[1..]);
      TrimIdempotent(tags[0]);
      assert t[1..] == TrimAll(tags[1..]);
    }
  }

  /** The document Post.create builds before validation: the trim setters
      applied, the author stamped, and the schema defaults (no tags, empty
      featured image, unpublished, no views, no comments) for what is missing. */
  function NewDocument(input: PostInput, author: UserId): (d: Post)
    ensures d.author == author && d.views == 0 && d.comments == []
    ensures d.title == Trim(input.title) && d.content == input.content && d.excerpt == input.excerpt
    ensures d.category == input.category
    ensures input.tags.None? ==> d.tags == []
    ensures input.tags.Some? ==> d.tags == TrimAll(input.tags.value)
    ensures input.featuredImage.None? ==> d.featuredImage == ""
    ensures input.published.None? ==> !d.published
    ensures input.featuredImage.Some? ==> d.featuredImage == input.featuredImage.value
    ensures input.published.Some? ==> d.published == input.published.value
  {
    Post(
      title := Trim(input.title),
      slug := "",
      content := input.content,
      excerpt := input.excerpt,
      author := author,
      category := input.category,
      tags := TrimAll(input.tags.GetOr([])),
      featuredImage := input.featuredImage.GetOr(""),
      published := input.published.GetOr(false),
      views := 0,
      comments := [])
  }

  /** The comment addComment pushes: trimmed name and text, owned by the actor. */
  function NewComment(id: CommentId, author: string, content: string, user: UserId): Comment {
    Comment(id, Trim(author), Trim(content), user)
  }
}
