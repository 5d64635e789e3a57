/**
 * Extracting the token from an `Authorization` header of the form
 * `Bearer <token>` (the bearer scheme of section 2.1 of RFC 6750) the way
 * the authorizer does: split the header on every single space, as
 * JavaScript's `String.prototype.split(' ')` does, and take segment 1.
 */
module Bearer {
  import opened Wrappers

  const Space: char := ' '

  /**
   * `s.split(' ')`: the maximal space-free segments, empty ones included
   * (two adjacent spaces give an empty segment). There is always at least one.
   */
  function Split(s: string): (parts: seq<string>)
    ensures |parts| >= 1
    ensures forall i :: 0 <= i < |parts| ==> Space !in parts[i]
    decreases |s|
  {
    if |s| == 0 then [""]
    else
      var rest := Split(s[1..]);
      if s[0] == Space then [""] + rest
      else [[s[0]] + rest[0]] + rest[1..]
  }

  /** `parts.join(' ')`, the partner of Split. */
  function Join(parts: seq<string>): string
    requires |parts| >= 1
  {
    if |parts| == 1 then parts[0] else parts[0] + [Space] + Join(parts[1..])
  }

  /** Joining the segments back gives the header: Split loses nothing. */
  lemma {:induction false} JoinSplit(s: string)
    ensures Join(Split(s)) == s
    decreases |s|
  {
    if |s| > 0 {
      var rest := Split(s[1..]);
      JoinSplit(s[1..]);
      if s[0] == Space {
        assert Split(s) == [""] + rest;
        assert ([""] + rest)[1..] == rest;
        assert s == [s[0]] + s[1..];
      } else {
        var parts := [[s[0]] + rest[0]] + rest[1..];
        assert Split(s) == parts;
        if |rest| == 1 {
          assert s == [s[0]] + s[1..];
        } else {
          assert parts[1..] == rest[1..];
          assert Join(rest) == rest[0] + [Space] + Join(rest[1..]);
          assert s == [s[0]] + s[1..];
        }
      }
    }
  }

  /** A space-free string is a single segment. */
  lemma {:induction false} SplitWord(w: string)
    requires Space !in w
    ensures Split(w) == [w]
    decreases |w|
  {
    if |w| > 0 {
      SplitWord(w[1..]);
      assert [w[0]] + w[1..] == w;
    }
  }

  /** A space-free prefix followed by a space is exactly the first segment. */
  lemma {:induction false} SplitAfterWord(w: string, s: string)
    requires Space !in w
    ensures Split(w + [Space] + s) == [w] + Split(s)
    decreases |w|
  {
    var h := w + [Space] + s;
    if |w| == 0 {
      assert h == [Space] + s;
      assert h[1..] == s;
    } else {
      assert h[1..] == w[1..] + [Space] + s;
      SplitAfterWord(w[1..], s);
      assert [w[0]] + w[1..] == w;
    }
  }

  /** Split is the unique decomposition into space-free segments. */
  lemma {:induction false} SplitJoin(parts: seq<string>)
    requires |parts| >= 1
    requires forall i :: 0 <= i < |parts| ==> Space !in parts[i]
    ensures Split(Join(parts)) == parts
    decreases |parts|
  {
    if |parts| == 1 {
      SplitWord(parts[0]);
    } else {
      SplitJoin(parts[1..]);
      SplitAfterWord(parts[0], Join(parts[1..]));
      assert [parts[0]] + parts[1..] == parts;
    }
  }

  /**
   * `authorizationToken.split(' ')[1]`: the second segment, or undefined
   * when the header has no space.
   */
  function TokenOf(header: string): (token: Option<string>)
    ensures token.Some? ==> Space !in token.value
  {
    var parts := Split(header);
    if |parts| >= 2 then Some(parts[1]) else None
  }

  /** The position of the first space, or the length when there is none. */
  function FirstSpace(s: string): (i: nat)
    ensures i <= |s|
    ensures Space !in s[..i]
    ensures i < |s| ==> s[i] == Space
  {
    if |s| == 0 || s[0] == Space then 0
    else
      var j := FirstSpace(s[1..]);
      assert s[..j + 1] == [s[0]] + s[1..][..j];
      j + 1
  }

  /**
   * Reference reading of the header: the text after the first space, up to
   * the next space or the end.
   */
  function SecondWord(header: string): Option<string> {
    var i := FirstSpace(header);
    if i == |header| then None
    else
      var rest := header[i + 1..];
      Some(rest[..FirstSpace(rest)])
  }

  /** The first segment is the text up to the first space. */
  lemma FirstSegment(s: string)
    ensures Split(s)[0] == s[..FirstSpace(s)]
  {
    var j := FirstSpace(s);
    if j == |s| {
      assert s[..j] == s;
      SplitWord(s);
    } else {
      assert s == s[..j] + [Space] + s[j + 1..];
      SplitAfterWord(s[..j], s[j + 1..]);
    }
  }

  /** The token taken is exactly the text between the first and the second space. */
  lemma TokenOfIsSecondWord(header: string)
    ensures TokenOf(header) == SecondWord(header)
  {
    var i := FirstSpace(header);
    if i == |header| {
      assert header[..i] == header;
      SplitWord(header);
    } else {
      var rest := header[i + 1..];
      assert header == header[..i] + [Space] + rest;
      SplitAfterWord(header[..i], rest);
      FirstSegment(rest);
    }
  }

  /** There is no token segment exactly when the header holds no space. */
  lemma TokenOfNeedsSpace(header: string)
    ensures TokenOf(header).None? <==> Space !in header
  {
    TokenOfIsSecondWord(header);
    var i := FirstSpace(header);
    if i == |header| {
      assert header[..i] == header;
    }
  }

  /**
   * Any first word is accepted as the scheme: the header's first segment is
   * never compared with "Bearer".
   */
  lemma SchemeNotChecked(scheme: string, token: string, trailer: Option<string>)
    requires Space !in scheme && Space !in token
    ensures TokenOf(scheme + [Space] + token) == Some(token)
    ensures trailer.Some? ==> TokenOf(scheme + [Space] + token + [Space] + trailer.value) == Some(token)
  {
    SplitAfterWord(scheme, token);
    SplitWord(token);
    if trailer.Some? {
      assert scheme + [Space] + token + [Space] + trailer.value == scheme + [Space] + (token + [Space] + trailer.value);
      SplitAfterWord(scheme, token + [Space] + trailer.value);
      SplitAfterWord(token, trailer.value);
    }
  }
}
