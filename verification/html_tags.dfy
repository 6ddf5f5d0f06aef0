/**
 The optional first pass of the preprocessor: `html_tag_re.sub("", t)` with
 the pattern `(<!--.*?-->|<[^>]*>)`.

 The substitution scans left to right and removes non-overlapping matches. At
 a `<` the two alternatives are tried in order:
 - a comment: `<!--`, then the shortest run of code points other than line
   feed (`.` does not match `\n`) that is followed by `-->`;
 - otherwise a tag: `<`, then everything up to and including the first `>`
   (line feeds included).
 A `<` where neither alternative matches is kept and the scan moves on.
 Every match is at least two code points long, so the empty-match rules of
 the substitution never come into play.
 */
module HtmlTags {
  import opened CodePoints

  datatype Option<T> = None | Some(value: T)

  /** `<!--` at the start of `t`. */
  predicate OpensComment(t: Text) {
    4 <= |t| && t[0] == LessThan && t[1] == Exclamation && t[2] == HyphenMinus && t[3] == HyphenMinus
  }

  /** `-->` at position `k` of `t`. */
  predicate ClosesCommentAt(t: Text, k: nat) {
    k + 3 <= |t| && t[k] == HyphenMinus && t[k + 1] == HyphenMinus && t[k + 2] == GreaterThan
  }

  /** `.*-->` matches from position `j` with the `-->` at `k`: there is a close
      at `k` and no line feed in `t[j..k]`. */
  predicate ClosedFrom(t: Text, j: nat, k: nat) {
    j <= k && ClosesCommentAt(t, k) && forall m :: j <= m < k ==> t[m] != LineFeed
  }

  /** `t[..n]` is a match of the comment alternative `<!--.*-->` (with any run
      length, the lazy quantifier picks the shortest). */
  predicate IsCommentMatch(t: Text, n: nat) {
    OpensComment(t) && 7 <= n && ClosedFrom(t, 4, n - 3)
  }

  /** `t[..n]` is the match of the tag alternative `<[^>]*>`. */
  predicate IsTagMatch(t: Text, n: nat) {
    2 <= n <= |t| && t[0] == LessThan && t[n - 1] == GreaterThan
    && forall m :: 1 <= m < n - 1 ==> t[m] != GreaterThan
  }

  /** The lazy `.*?-->` scan from `j`: at each position first try `-->`, then
      consume one code point unless it is a line feed. */
  function FindCommentClose(t: Text, j: nat): (r: Option<nat>)
    ensures r.Some? ==> ClosedFrom(t, j, r.value)
    ensures r.Some? ==> forall k :: j <= k < r.value ==> !ClosesCommentAt(t, k)
    ensures r.None? ==> forall k :: !ClosedFrom(t, j, k)
    decreases |t| - j
  {
    if |t| < j + 3 then None
    else if ClosesCommentAt(t, j) then Some(j)
    else if t[j] == LineFeed then None
    else
      assert forall k :: ClosedFrom(t, j, k) && k != j ==> ClosedFrom(t, j + 1, k);
      FindCommentClose(t, j + 1)
  }

  /** The first `>` at or after position `j`. */
  function FindGreaterThan(t: Text, j: nat): (r: Option<nat>)
    ensures r.Some? ==> j <= r.value < |t| && t[r.value] == GreaterThan
    ensures r.Some? ==> forall m :: j <= m < r.value ==> t[m] != GreaterThan
    ensures r.None? ==> forall m :: j <= m < |t| ==> t[m] != GreaterThan
    decreases |t| - j
  {
    if |t| <= j then None
    else if t[j] == GreaterThan then Some(j)
    else FindGreaterThan(t, j + 1)
  }

  /** The length of the match of `(<!--.*?-->|<[^>]*>)` at the start of `t`,
      if any: a comment is preferred, and the shortest one is taken. */
  function MatchAt(t: Text): (r: Option<nat>)
    ensures r.Some? ==> IsCommentMatch(t, r.value) || IsTagMatch(t, r.value)
    ensures r.Some? ==> 2 <= r.value <= |t|
    ensures r.None? ==> forall n :: !IsCommentMatch(t, n) && !IsTagMatch(t, n)
    ensures r.None? && 0 < |t| && t[0] == LessThan ==> forall m :: 1 <= m < |t| ==> t[m] != GreaterThan
    ensures forall n :: IsCommentMatch(t, n) ==> r.Some? && IsCommentMatch(t, r.value) && r.value <= n
  {
    if |t| == 0 || t[0] != LessThan then None
    else
      var comment := if OpensComment(t) then FindCommentClose(t, 4) else None;
      if comment.Some? then Some(comment.value + 3)
      else
        match FindGreaterThan(t, 1)
        case Some(k) => Some(k + 1)
        case None => None
  }

  /** No `<` of `t` is followed, anywhere later, by a `>`. */
  predicate NoTagLeft(t: Text) {
    forall i, j :: 0 <= i < j < |t| && t[i] == LessThan ==> t[j] != GreaterThan
  }

  /** `html_tag_re.sub("", t)`. */
  function StripTags(t: Text): (r: Text)
    ensures NoTagLeft(r)
    ensures forall c :: c in r ==> c in t
    ensures |r| <= |t|
    decreases |t|
  {
    if |t| == 0 then []
    else
      match MatchAt(t)
      case Some(n) => StripTags(t[n..])
      case None =>
        var rest := StripTags(t[1..]);
        assert t[0] == LessThan ==> GreaterThan !in rest;
        [t[0]] + rest
  }

  /** On text where no `<` is followed by a `>`, neither alternative can match. */
  lemma NoMatchWithoutTag(t: Text)
    requires NoTagLeft(t)
    ensures MatchAt(t).None?
  {
    assert forall n :: IsCommentMatch(t, n) || IsTagMatch(t, n) ==>
      1 <= n - 1 < |t| && t[0] == LessThan && t[n - 1] == GreaterThan;
  }

  /** The stripper changes a text exactly when some `<` in it is followed by a `>`. */
  lemma {:induction false} StripTagsIdentityIff(t: Text)
    ensures StripTags(t) == t <==> NoTagLeft(t)
    decreases |t|
  {
    if |t| != 0 && NoTagLeft(t) {
      NoMatchWithoutTag(t);
      assert NoTagLeft(t[1..]) by {
        forall i, j | 0 <= i < j < |t[1..]| && t[1..][i] == LessThan
          ensures t[1..][j] != GreaterThan
        {
          assert t[1..][i] == t[i + 1] && t[1..][j] == t[j + 1];
        }
      }
      StripTagsIdentityIff(t[1..]);
      assert t == [t[0]] + t[1..];
    }
  }

  /** Stripping twice is the same as stripping once. */
  lemma StripTagsIdempotent(t: Text)
    ensures StripTags(StripTags(t)) == StripTags(t)
  {
    StripTagsIdentityIff(StripTags(t));
  }

  /** A prefix without `<` is copied through unchanged. */
  lemma {:induction false} StripTagsKeepsPlainPrefix(a: Text, b: Text)
    requires LessThan !in a
    ensures StripTags(a + b) == a + StripTags(b)
    decreases |a|
  {
    if |a| == 0 {
      assert a + b == b;
    } else {
      assert (a + b)[0] == a[0] && (a + b)[1..] == a[1..] + b;
      StripTagsKeepsPlainPrefix(a[1..], b);
    }
  }

  /** The substitution step itself: after a `<`-free prefix, the leftmost match
      (the shortest comment if there is one, otherwise the tag up to the first
      `>`) is deleted and the scan resumes right after it. With
      `StripTagsIdentityIff` this fixes the output on every input: the first
      `<` either has no `>` after it, and then nothing is left to strip, or it
      starts a match. */
  lemma StripTagsDeletesMatch(a: Text, b: Text, n: nat)
    requires LessThan !in a
    requires (IsCommentMatch(b, n) && forall m :: IsCommentMatch(b, m) ==> n <= m)
          || (IsTagMatch(b, n) && forall m :: !IsCommentMatch(b, m))
    ensures StripTags(a + b) == a + StripTags(b[n..])
  {
    StripTagsKeepsPlainPrefix(a, b);
    if IsCommentMatch(b, n) {
      assert MatchAt(b) == Some(n);
    } else {
      var r := MatchAt(b);
      assert r.Some? && IsTagMatch(b, r.value);
      assert r.value == n;
    }
  }

  /** `<b>hi</b>` becomes `hi`. */
  lemma StripBoldExample()
    ensures StripTags(Ascii("<b>hi</b>")) == Ascii("hi")
  {
    var t := Ascii("<b>hi</b>");
    assert MatchAt(t) == Some(3);
    var u := t[3..];
    assert u == Ascii("hi") + Ascii("</b>");
    var v := Ascii("</b>");
    assert MatchAt(v) == Some(4);
    assert v[4..] == [];
    StripTagsKeepsPlainPrefix(Ascii("hi"), v);
  }

  /** The comment alternative is tried first and ends at the first `-->`, so a
      `>` inside the comment does not end the match: `<!-- a > b -->x` becomes `x`. */
  lemma CommentWinsExample()
    ensures StripTags(Ascii("<!-- a > b -->x")) == Ascii("x")
  {
    var t := Ascii("<!-- a > b -->x");
    assert OpensComment(t);
    assert FindCommentClose(t, 4) == Some(11);
    assert MatchAt(t) == Some(14);
    assert t[14..] == Ascii("x");
    StripTagsKeepsPlainPrefix(Ascii("x"), []);
  }

  /** A line feed before the `-->` defeats the comment alternative, and the
      match falls back to the first `>`: `<!-- a\n> b -->c` becomes ` b -->c`. */
  lemma LineFeedFallbackExample()
    ensures StripTags(Ascii("<!-- a\n> b -->c")) == Ascii(" b -->c")
  {
    var t := Ascii("<!-- a\n> b -->c");
    assert FindCommentClose(t, 4).None? by {
      assert t[6] == LineFeed && !ClosesCommentAt(t, 6);
      assert FindCommentClose(t, 6).None?;
      assert FindCommentClose(t, 5).None?;
    }
    assert FindGreaterThan(t, 1) == Some(7) by {
      assert t[7] == GreaterThan && forall m :: 1 <= m < 7 ==> t[m] != GreaterThan;
    }
    assert MatchAt(t) == Some(8) by {
      assert OpensComment(t);
    }
    assert t[8..] == Ascii(" b -->c");
    assert StripTags(Ascii(" b -->c")) == Ascii(" b -->c") by { StripTagsKeepsPlainPrefix(Ascii(" b -->c"), []); assert Ascii(" b -->c") + [] == Ascii(" b -->c"); }
  }

}
