/**
 The mention substitution (`mass_mention_sanitizer.sub("@\u200b", t)`): every
 `@` gets a ZERO WIDTH SPACE right after it, which breaks the adjacency the
 chat platform's mention detector looks for. Every `@` is treated alike,
 whatever follows it.
 */
module Mentions {
  import opened CodePoints

  /** Every `@` of `t` is immediately followed by a zero width space. */
  predicate AllMentionsBroken(t: Text) {
    forall i :: 0 <= i < |t| && t[i] == CommercialAt ==> i + 1 < |t| && t[i + 1] == ZeroWidthSpace
  }

  /** `@` replaced by `@` + U+200B throughout `t`. */
  function EscapeMentions(t: Text): (r: Text)
    ensures |r| >= |t|
    ensures CommercialAt !in t ==> r == t
    decreases |t|
  {
    if |t| == 0 then []
    else if t[0] == CommercialAt then [CommercialAt, ZeroWidthSpace] + EscapeMentions(t[1..])
    else [t[0]] + EscapeMentions(t[1..])
  }

  /** One code point is added per `@`, and the number of `@` stays the same. */
  lemma {:induction false} EscapeCounts(t: Text)
    ensures |EscapeMentions(t)| == |t| + multiset(t)[CommercialAt]
    ensures multiset(EscapeMentions(t))[CommercialAt] == multiset(t)[CommercialAt]
    decreases |t|
  {
    if |t| != 0 {
      EscapeCounts(t[1..]);
      assert t == [t[0]] + t[1..];
    }
  }

  /** After the substitution no `@` is left without its zero width space. */
  lemma {:induction false} EscapeBreaksAllMentions(t: Text)
    ensures AllMentionsBroken(EscapeMentions(t))
    decreases |t|
  {
    if |t| != 0 {
      EscapeBreaksAllMentions(t[1..]);
      var rest := EscapeMentions(t[1..]);
      var r := EscapeMentions(t);
      var k := if t[0] == CommercialAt then 2 else 1;
      assert r[k..] == rest;
      forall i | 0 <= i < |r| && r[i] == CommercialAt
        ensures i + 1 < |r| && r[i + 1] == ZeroWidthSpace
      {
        if k <= i {
          assert r[i] == rest[i - k] && r[i + 1] == rest[i + 1 - k];
        }
      }
    }
  }

  /** The only code point the substitution brings in is the zero width space,
      and only when there is an `@` to break. */
  lemma {:induction false} EscapeContents(t: Text)
    ensures forall c :: c in EscapeMentions(t) <==> c in t || (c == ZeroWidthSpace && CommercialAt in t)
    decreases |t|
  {
    if |t| != 0 {
      EscapeContents(t[1..]);
      assert t == [t[0]] + t[1..];
    }
  }

  /** The inverse of the substitution: the zero width space after each `@` removed. */
  function RestoreMentions(r: Text): Text
    decreases |r|
  {
    if |r| == 0 then []
    else if 2 <= |r| && r[0] == CommercialAt && r[1] == ZeroWidthSpace then [CommercialAt] + RestoreMentions(r[2..])
    else [r[0]] + RestoreMentions(r[1..])
  }

  /** Nothing is lost: removing the inserted breaks gives back the input. */
  lemma {:induction false} EscapeRoundTrip(t: Text)
    ensures RestoreMentions(EscapeMentions(t)) == t
    decreases |t|
  {
    if |t| != 0 {
      EscapeRoundTrip(t[1..]);
      var rest := EscapeMentions(t[1..]);
      if t[0] == CommercialAt {
        assert ([CommercialAt, ZeroWidthSpace] + rest)[2..] == rest;
      } else {
        assert ([t[0]] + rest)[1..] == rest;
      }
      assert t == [t[0]] + t[1..];
    }
  }

  /** The other direction of the round trip: on text where every `@` already
      carries its break, removing the breaks and substituting again gives the
      text back. So `EscapeMentions(t)` is the only text whose `@` are all
      broken and whose breaks, once removed, leave `t`. */
  lemma {:induction false} EscapeOfRestore(r: Text)
    requires AllMentionsBroken(r)
    ensures EscapeMentions(RestoreMentions(r)) == r
    decreases |r|
  {
    if |r| != 0 {
      var k := if r[0] == CommercialAt then 2 else 1;
      assert AllMentionsBroken(r[k..]) by {
        forall i | 0 <= i < |r[k..]| && r[k..][i] == CommercialAt
          ensures i + 1 < |r[k..]| && r[k..][i + 1] == ZeroWidthSpace
        {
          assert r[i + k] == CommercialAt;
        }
      }
      EscapeOfRestore(r[k..]);
      var rest := RestoreMentions(r[k..]);
      assert RestoreMentions(r) == [r[0]] + rest;
      assert ([r[0]] + rest)[0] == r[0] && ([r[0]] + rest)[1..] == rest;
      assert r == r[..k] + r[k..];
    }
  }

  /** The substitution works code point by code point, so it distributes over
      concatenation. */
  lemma {:induction false} EscapeDistributes(a: Text, b: Text)
    ensures EscapeMentions(a + b) == EscapeMentions(a) + EscapeMentions(b)
    decreases |a|
  {
    if |a| == 0 {
      assert a + b == b;
    } else {
      assert (a + b)[0] == a[0] && (a + b)[1..] == a[1..] + b;
      EscapeDistributes(a[1..], b);
      var head := if a[0] == CommercialAt then [CommercialAt, ZeroWidthSpace] else [a[0]];
      assert EscapeMentions(a + b) == head + EscapeMentions(a[1..] + b);
      assert EscapeMentions(a) == head + EscapeMentions(a[1..]);
    }
  }

  /** The substitution leaves a text unchanged exactly when it holds no `@`. */
  lemma EscapeIdentityIff(t: Text)
    ensures EscapeMentions(t) == t <==> CommercialAt !in t
  {
    EscapeCounts(t);
    assert CommercialAt in t <==> multiset(t)[CommercialAt] > 0;
  }

  /** The substitution is not idempotent: on a text with an `@` a second pass
      adds a second zero width space, although the number of `@` stays the same. */
  lemma EscapeTwiceAddsBreaks(t: Text)
    requires CommercialAt in t
    ensures EscapeMentions(EscapeMentions(t)) != EscapeMentions(t)
    ensures multiset(EscapeMentions(EscapeMentions(t)))[CommercialAt] == multiset(t)[CommercialAt]
  {
    EscapeCounts(t);
    EscapeCounts(EscapeMentions(t));
    assert multiset(t)[CommercialAt] > 0;
  }

  /** `@` followed by two zero width spaces after two passes over `@`. */
  lemma EscapeTwiceExample()
    ensures EscapeMentions(EscapeMentions([CommercialAt])) == [CommercialAt, ZeroWidthSpace, ZeroWidthSpace]
  {
    assert [CommercialAt][1..] == [];
    var once := [CommercialAt, ZeroWidthSpace];
    assert EscapeMentions([CommercialAt]) == once;
    assert once[1..] == [ZeroWidthSpace] && once[1..][1..] == [];
  }

  /** `@everyone` becomes `@` U+200B `everyone`. */
  lemma EveryoneExample()
    ensures EscapeMentions(Ascii("@everyone")) == [CommercialAt, ZeroWidthSpace] + Ascii("everyone")
  {
    var t := Ascii("@everyone");
    assert t == [CommercialAt] + Ascii("everyone");
    EscapeDistributes([CommercialAt], Ascii("everyone"));
    assert [CommercialAt][1..] == [];
  }

  /** `a@b@c` becomes `a@` U+200B `b@` U+200B `c`: every `@` is broken on its own. */
  lemma EveryMentionExample()
    ensures EscapeMentions(Ascii("a@b@c"))
      == Ascii("a@") + [ZeroWidthSpace] + Ascii("b@") + [ZeroWidthSpace] + Ascii("c")
  {
    var a, b, c := Ascii("a"), Ascii("b"), Ascii("c");
    var at, broken := [CommercialAt], [CommercialAt, ZeroWidthSpace];
    assert EscapeMentions(at) == broken by { assert at[1..] == []; }
    calc {
      EscapeMentions(Ascii("a@b@c"));
      { assert Ascii("a@b@c") == a + at + b + at + c; }
      EscapeMentions(a + at + b + at + c);
      { EscapeDistributes(a + at + b + at, c); }
      EscapeMentions(a + at + b + at) + c;
      { EscapeDistributes(a + at + b, at); }
      EscapeMentions(a + at + b) + broken + c;
      { EscapeDistributes(a + at, b); }
      EscapeMentions(a + at) + b + broken + c;
      { EscapeDistributes(a, at); }
      a + broken + b + broken + c;
      { assert a + broken == Ascii("a@") + [ZeroWidthSpace] && b + broken == Ascii("b@") + [ZeroWidthSpace]; }
      Ascii("a@") + [ZeroWidthSpace] + Ascii("b@") + [ZeroWidthSpace] + Ascii("c");
    }
  }

}
