/** Identifiers, actors, outcomes and the authorization rule shared by the
    post and category stores. */
module Common {

  datatype Option<T> = None | Some(value: T) {
    function GetOr(default: T): T {
      match this
      case Some(v) => v
      case None => default
    }
  }

  /** Document identifiers. The stores hand them out in increasing order, so
      a post identifier also serves as its creation-time ordering key. */
  type UserId = nat
  type PostId = nat
  type CategoryId = nat
  type CommentId = nat

  /** The two account roles, 'user' and 'admin'. */
  datatype Role = RegularUser | Admin

  /** The authenticated user making a request. */
  datatype Actor = Actor(id: UserId, role: Role)

  /** How a request fails; each handler maps these onto an HTTP status. */
  datatype Error =
    | NotFound                     // 404: unknown post, comment or category
    | Forbidden                    // 403: neither the owner nor an admin
    | Invalid                      // schema validation rejected the document (500)
    | DuplicateSlug                // unique slug index rejected the document (500)
    | ServerError                  // a query the database refuses (500)
    | CategoryExists               // 400 "Category already exists"
    | CategoryNameExists           // 400 "Category name already exists"
    | CategoryInUse(count: nat)    // 400 "Cannot delete category. N post(s) are using this category."

  datatype Result<T> = Ok(value: T) | Err(error: Error)

  /** The ownership rule: the actor owns the resource or is an admin. */
  predicate CanModify(actor: Actor, owner: UserId) {
    actor.id == owner || actor.role == Admin
  }
}

/** JavaScript string helpers the schema and the client rely on. */
module Text {

  /** JavaScript WhiteSpace and LineTerminator code points, which
      String.prototype.trim removes from both ends. */
  predicate IsSpace(c: char) {
    c == '\t' || c == '\n' || c == '\U{B}' || c == '\U{C}' || c == '\r' || c == ' '
    || c == '\U{A0}' || c == '\U{1680}' || ('\U{2000}' <= c <= '\U{200A}')
    || c == '\U{2028}' || c == '\U{2029}' || c == '\U{202F}' || c == '\U{205F}'
    || c == '\U{3000}' || c == '\U{FEFF}'
  }

  /** A suffix of the tail of s is a suffix of s. */
  lemma SuffixOfTail(s: string, r: string)
    requires s != [] && |r| < |s| && r == s[1..][|s| - 1 - |r|..]
    ensures r == s[|s| - |r|..]
  {
    assert forall i :: 0 <= i < |r| ==> r[i] == s[|s| - |r| + i];
  }

  /** A prefix of s without its last element is a prefix of s. */
  lemma PrefixOfInit(s: string, r: string)
    requires s != [] && |r| < |s| && r == s[..|s| - 1][..|r|]
    ensures r == s[..|r|]
  {
    assert forall i :: 0 <= i < |r| ==> r[i] == s[i];
  }

  function TrimStart(s: string): (r: string)
    ensures |r| <= |s|
    ensures r == [] || !IsSpace(r[0])
  {
    if s != [] && IsSpace(s[0]) then TrimStart(s[1..]) else s
  }

  /** TrimStart leaves a suffix of its argument. */
  lemma {:induction false} TrimStartIsSuffix(s: string)
    ensures TrimStart(s) == s[|s| - |TrimStart(s)|..]
  {
    if s != [] && IsSpace(s[0]) {
      TrimStartIsSuffix(s[1..]);
      SuffixOfTail(s, TrimStart(s));
    }
  }

  function TrimEnd(s: string): (r: string)
    ensures |r| <= |s|
    ensures r == [] || !IsSpace(r[|r| - 1])
  {
    if s != [] && IsSpace(s[|s| - 1]) then TrimEnd(s[..|s| - 1]) else s
  }

  /** TrimEnd leaves a prefix of its argument. */
  lemma {:induction false} TrimEndIsPrefix(s: string)
    ensures TrimEnd(s) == s[..|TrimEnd(s)|]
  {
    if s != [] && IsSpace(s[|s| - 1]) {
      TrimEndIsPrefix(s[..|s| - 1]);
      PrefixOfInit(s, TrimEnd(s));
    }
  }

  /** TrimStart removes white space only. */
  lemma {:induction false} TrimStartDropsSpace(s: string)
    ensures forall i :: 0 <= i < |s| - |TrimStart(s)| ==> IsSpace(s[i])
  {
    if s != [] && IsSpace(s[0]) {
      TrimStartDropsSpace(s[1..]);
      forall i | 1 <= i < |s| - |TrimStart(s)| ensures IsSpace(s[i]) {
        assert s[i] == s[1..][i - 1];
      }
    }
  }

  /** TrimEnd removes white space only. */
  lemma {:induction false} TrimEndDropsSpace(s: string)
    ensures forall i :: |TrimEnd(s)| <= i < |s| ==> IsSpace(s[i])
  {
    if s != [] && IsSpace(s[|s| - 1]) {
      TrimEndDropsSpace(s[..|s| - 1]);
    }
  }

  /** String.prototype.trim: what is left once the white space at both ends
      is gone, so it neither starts nor ends with white space. */
  function Trim(s: string): (r: string)
    ensures r == [] || (!IsSpace(r[0]) && !IsSpace(r[|r| - 1]))
  {
    TrimEndIsPrefix(TrimStart(s));
    TrimEnd(TrimStart(s))
  }

  /** The number of white-space characters at the start of s. */
  function LeadingSpace(s: string): nat {
    |s| - |TrimStart(s)|
  }

  /** Trim removes white space only: its result is the slice of s that starts
      after the leading white space, and everything after it is white space. */
  lemma {:induction false} TrimIsSlice(s: string)
    ensures LeadingSpace(s) + |Trim(s)| <= |s|
    ensures Trim(s) == s[LeadingSpace(s)..LeadingSpace(s) + |Trim(s)|]
    ensures forall i :: 0 <= i < LeadingSpace(s) ==> IsSpace(s[i])
    ensures forall i :: LeadingSpace(s) + |Trim(s)| <= i < |s| ==> IsSpace(s[i])
  {
    var t := TrimStart(s);
    var r := TrimEnd(t);
    var a := |s| - |t|;
    TrimStartDropsSpace(s);
    TrimEndDropsSpace(t);
    TrimStartIsSuffix(s);
    TrimEndIsPrefix(t);
    assert t == s[a..];
    assert r == t[..|r|];
    assert r == s[a..a + |r|];
    forall i | a + |r| <= i < |s| ensures IsSpace(s[i]) {
      assert |r| <= i - a < |t|;
      assert s[i] == t[i - a];
    }
  }

  /** Trimming a string that has no white space at either end changes nothing. */
  lemma TrimKeepsTrimmed(s: string)
    requires s == [] || (!IsSpace(s[0]) && !IsSpace(s[|s| - 1]))
    ensures Trim(s) == s
  {
  }

  /** Trimming twice is trimming once. */
  lemma TrimIdempotent(s: string)
    ensures Trim(Trim(s)) == Trim(s)
  {
    TrimKeepsTrimmed(Trim(s));
  }
}
