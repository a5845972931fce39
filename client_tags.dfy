/** The tag list the post forms send: the comma-separated field split on
    commas, each piece trimmed, the empty pieces dropped; and the field the
    edit form fills from a post's tags, joined with ", ". */
module ClientTags {
  import opened Text

  /** String.prototype.split(','): the pieces between the commas, at least one. */
  function SplitCommas(s: string): (r: seq<string>)
    ensures |r| >= 1
  {
    if s == [] then [""]
    else if s[0] == ',' then [""] + SplitCommas(s[1..])
    else
      var rest := SplitCommas(s[1..]);
      [[s[0]] + rest[0]] + rest[1..]
  }

  /** The trimmed non-empty pieces, in order. */
  function Clean(pieces: seq<string>): seq<string> {
    if pieces == [] then []
    else (if Trim(pieces[0]) == "" then [] else [Trim(pieces[0])]) + Clean(pieces[1..])
  }

  /** split(',').map(tag => tag.trim()).filter(tag => tag). */
  function ParseTags(field: string): seq<string> {
    Clean(SplitCommas(field))
  }

  /** Every tag the forms send is non-empty, has no white space at either
      end and holds no comma. */
  lemma ParseGivesTags(field: string)
    ensures forall t :: t in ParseTags(field) ==> IsTag(t)
  {
    SplitGivesPieces(field);
    CleanGivesTags(SplitCommas(field));
  }

  /** No piece of a split holds a comma. */
  lemma {:induction false} SplitGivesPieces(s: string)
    ensures forall p :: p in SplitCommas(s) ==> ',' !in p
  {
    if s != [] {
      SplitGivesPieces(s[1..]);
      var rest := SplitCommas(s[1..]);
      if s[0] != ',' {
        assert rest[0] in rest;
        assert forall p :: p in rest[1..] ==> p in rest;
      }
    }
  }

  /** A tag as the forms send it: non-empty, without white space at either
      end (so trimming leaves it as it is), without a comma. */
  predicate IsTag(t: string) {
    t != "" && !IsSpace(t[0]) && !IsSpace(t[|t| - 1]) && ',' !in t
  }

  /** tags.join(', '). */
  function JoinTags(tags: seq<string>): string {
    if tags == [] then ""
    else if |tags| == 1 then tags[0]
    else tags[0] + ", " + JoinTags(tags[1..])
  }

  lemma {:induction false} CleanGivesTags(pieces: seq<string>)
    requires forall p :: p in pieces ==> ',' !in p
    ensures forall t :: t in Clean(pieces) ==> IsTag(t)
  {
    if pieces != [] {
      CleanGivesTags(pieces[1..]);
      TrimKeepsCommaFree(pieces[0]);
    }
  }

  /** Trimming a piece without commas leaves one without commas. */
  lemma TrimKeepsCommaFree(s: string)
    requires ',' !in s
    ensures ',' !in Trim(s)
  {
    TrimIsSlice(s);
    var a := LeadingSpace(s);
    var t := Trim(s);
    assert forall i :: 0 <= i < |t| ==> t[i] == s[a + i];
  }

  /** A piece without commas splits to itself. */
  lemma {:induction false} SplitWithoutComma(a: string)
    requires ',' !in a
    ensures SplitCommas(a) == [a]
  {
    if a != [] {
      SplitWithoutComma(a[1..]);
      assert [a[0]] + a[1..] == a;
    }
  }

  /** A comma-free prefix joins the first piece of what follows it. */
  lemma {:induction false} SplitAfterPrefix(a: string, b: string)
    requires ',' !in a
    ensures SplitCommas(a + b) == [a + SplitCommas(b)[0]] + SplitCommas(b)[1..]
  {
    if a != [] {
      SplitAfterPrefix(a[1..], b);
      assert (a + b)[1..] == a[1..] + b;
      assert [a[0]] + (a[1..] + SplitCommas(b)[0]) == a + SplitCommas(b)[0];
    } else {
      var r := SplitCommas(b);
      assert a + b == b && a + r[0] == r[0];
      assert r == [r[0]] + r[1..];
    }
  }

  /** A comma-free piece followed by a comma splits off as one piece. */
  lemma SplitAtComma(a: string, b: string)
    requires ',' !in a
    ensures SplitCommas(a + "," + b) == [a] + SplitCommas(b)
  {
    var c := "," + b;
    assert c[0] == ',' && c[1..] == b;
    assert SplitCommas(c) == [""] + SplitCommas(b);
    SplitAfterPrefix(a, c);
    assert a + "," + b == a + c && a + "" == a;
  }

  lemma CleanCons(p: string, ps: seq<string>)
    ensures Clean([p] + ps) == (if Trim(p) == "" then [] else [Trim(p)]) + Clean(ps)
  {
    assert ([p] + ps)[1..] == ps;
  }

  /** White space in front of a piece does not survive the trim. */
  lemma {:induction false} TrimDropsLeadingSpace(s: string)
    ensures Trim(" " + s) == Trim(s)
  {
    assert (" " + s)[1..] == s;
  }

  /** A space in front of the field is trimmed away with the first piece. */
  lemma CleanAfterSpace(j: string)
    ensures Clean(SplitCommas(" " + j)) == Clean(SplitCommas(j))
  {
    var pieces := SplitCommas(j);
    SplitAfterPrefix(" ", j);
    TrimDropsLeadingSpace(pieces[0]);
    CleanCons(" " + pieces[0], pieces[1..]);
    CleanCons(pieces[0], pieces[1..]);
    assert pieces == [pieces[0]] + pieces[1..];
  }

  /** The field of a tag followed by ", " and more fields parses to that tag
      and what the rest parses to. */
  lemma ParseAfterTag(t: string, j: string)
    requires IsTag(t)
    ensures ParseTags(t + ", " + j) == [t] + ParseTags(j)
  {
    TrimKeepsTrimmed(t);
    assert ", " == "," + " ";
    assert t + ", " + j == t + "," + (" " + j);
    SplitAtComma(t, " " + j);
    CleanCons(t, SplitCommas(" " + j));
    CleanAfterSpace(j);
  }

  /** A field holding one tag parses to that tag. */
  lemma ParseOneTag(t: string)
    requires IsTag(t)
    ensures ParseTags(t) == [t]
  {
    SplitWithoutComma(t);
    TrimKeepsTrimmed(t);
    assert [t] + [] == [t];
    CleanCons(t, []);
  }

  lemma JoinStep(tags: seq<string>)
    requires |tags| > 1
    ensures JoinTags(tags) == tags[0] + ", " + JoinTags(tags[1..])
    ensures [tags[0]] + tags[1..] == tags
  {
  }

  lemma {:induction false} ParseJoinRoundTrip(tags: seq<string>)
    requires forall t :: t in tags ==> IsTag(t)
    ensures ParseTags(JoinTags(tags)) == tags
  {
    if tags != [] {
      assert tags[0] in tags;
      if |tags| == 1 {
        ParseOneTag(tags[0]);
      } else {
        assert forall t :: t in tags[1..] ==> t in tags;
        ParseJoinRoundTrip(tags[1..]);
        JoinStep(tags);
        ParseAfterTag(tags[0], JoinTags(tags[1..]));
      }
    }
  }

  /** Parsing a field, joining the result and parsing again changes nothing. */
  lemma ParseTagsStable(field: string)
    ensures ParseTags(JoinTags(ParseTags(field))) == ParseTags(field)
  {
    ParseGivesTags(field);
    ParseJoinRoundTrip(ParseTags(field));
  }
}
