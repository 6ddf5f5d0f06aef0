/**
 The final pass of the preprocessor: deletion of every code point the chat
 platform is known to drop silently (`discord_drop_re`).

 The pattern is one regular-expression character class. The `|` written
 between its members is therefore a literal member of the class, not an
 alternation, so U+007C VERTICAL LINE is dropped too. The six surrogates are
 single code points, and only U+E0195..U+E01EF is a range.
 */
module DropChars {
  import opened CodePoints

  /** An inclusive range of code points; a single code point is a range of one. */
  datatype DropRange = DropRange(first: CodePoint, last: CodePoint)

  /** The members of the character class, in the order the pattern lists them:
      U+202E, `|`, the six surrogates, then the variation-selector range
      U+E0195..U+E01EF (VS166..VS256). */
  const DropTable: seq<DropRange> := [
    DropRange(RightToLeftOverride, RightToLeftOverride),
    DropRange(VerticalLine, VerticalLine),
    DropRange(0xD800, 0xD800),
    DropRange(0xDB7F, 0xDB7F),
    DropRange(0xDB80, 0xDB80),
    DropRange(0xDBFF, 0xDBFF),
    DropRange(0xDC00, 0xDC00),
    DropRange(0xDFFF, 0xDFFF),
    DropRange(0xE_0195, 0xE_01EF)
  ]

  /** `c` is matched by the character class: it lies in some range of the table.
      Spelled out, the class is eight single code points and one range. */
  predicate IsDropped(c: CodePoint): (b: bool)
    ensures b <==> c in {0x202E, 0x7C, 0xD800, 0xDB7F, 0xDB80, 0xDBFF, 0xDC00, 0xDFFF}
                   || 0xE_0195 <= c <= 0xE_01EF
  {
    TableWitness(c);
    exists i :: 0 <= i < |DropTable| && DropTable[i].first <= c <= DropTable[i].last
  }

  /** Helper for IsDropped: the table entry covering each spelled-out member. */
  lemma TableWitness(c: CodePoint)
    ensures c in {0x202E, 0x7C, 0xD800, 0xDB7F, 0xDB80, 0xDBFF, 0xDC00, 0xDFFF} || 0xE_0195 <= c <= 0xE_01EF
      ==> exists i :: 0 <= i < |DropTable| && DropTable[i].first <= c <= DropTable[i].last
  {
    if c in {0x202E, 0x7C, 0xD800, 0xDB7F, 0xDB80, 0xDBFF, 0xDC00, 0xDFFF} || 0xE_0195 <= c <= 0xE_01EF {
      var i :=
        if c == 0x202E then 0 else if c == 0x7C then 1 else if c == 0xD800 then 2
        else if c == 0xDB7F then 3 else if c == 0xDB80 then 4 else if c == 0xDBFF then 5
        else if c == 0xDC00 then 6 else if c == 0xDFFF then 7 else 8;
      assert DropTable[i].first <= c <= DropTable[i].last;
    }
  }

  /** No code point of `t` is in the drop table. */
  predicate Clean(t: Text) {
    forall i :: 0 <= i < |t| ==> !IsDropped(t[i])
  }

  /** `discord_drop_re.sub("", t)`: every code point of the table removed. */
  function DropKnownDropped(t: Text): (r: Text)
    ensures Clean(r)
    ensures forall c :: c in r <==> c in t && !IsDropped(c)
    ensures |r| <= |t|
  {
    if |t| == 0 then []
    else if IsDropped(t[0]) then DropKnownDropped(t[1..])
    else [t[0]] + DropKnownDropped(t[1..])
  }

  /** The filter works code point by code point, so it distributes over
      concatenation: what is kept stays in its original order. */
  lemma {:induction false} DropDistributes(a: Text, b: Text)
    ensures DropKnownDropped(a + b) == DropKnownDropped(a) + DropKnownDropped(b)
    decreases |a|
  {
    if |a| != 0 {
      assert (a + b)[0] == a[0];
      assert (a + b)[1..] == a[1..] + b;
      DropDistributes(a[1..], b);
    } else {
      assert a + b == b;
    }
  }

  /** Each code point outside the table keeps its multiplicity; each one in the
      table disappears. */
  lemma {:induction false} DropCounts(t: Text, c: CodePoint)
    ensures multiset(DropKnownDropped(t))[c] == if IsDropped(c) then 0 else multiset(t)[c]
    decreases |t|
  {
    if |t| != 0 {
      assert t == [t[0]] + t[1..];
      DropCounts(t[1..], c);
    }
  }

  /** The filter leaves a text unchanged exactly when it holds no dropped code point. */
  lemma {:induction false} DropIdentityIffClean(t: Text)
    ensures DropKnownDropped(t) == t <==> Clean(t)
    decreases |t|
  {
    if |t| != 0 {
      DropIdentityIffClean(t[1..]);
      if !IsDropped(t[0]) {
        assert Clean(t) <==> Clean(t[1..]) by {
          if Clean(t[1..]) {
            forall i | 0 <= i < |t| ensures !IsDropped(t[i]) {
              if i > 0 { assert t[i] == t[1..][i - 1]; }
            }
          }
        }
      } else {
        assert |DropKnownDropped(t)| <= |t[1..]| < |t|;
      }
    }
  }

  /** Running the filter a second time changes nothing. */
  lemma DropIdempotent(t: Text)
    ensures DropKnownDropped(DropKnownDropped(t)) == DropKnownDropped(t)
  {
    DropIdentityIffClean(DropKnownDropped(t));
  }

  /** The table as the pattern spells it: `|` is in it, the surrogates are six
      single points rather than ranges, and the variation-selector range
      U+E0195..U+E01EF (VS166..VS256) is inclusive. */
  lemma DropTableMembers()
    ensures IsDropped(RightToLeftOverride) && IsDropped(VerticalLine)
    ensures IsDropped(0xD800) && IsDropped(0xDFFF) && !IsDropped(0xD801) && !IsDropped(0xDC01)
    ensures IsDropped(0xE_0195) && IsDropped(0xE_01EF)
    ensures !IsDropped(0xE_0194) && !IsDropped(0xE_01F0)
    ensures !IsDropped(CommercialAt) && !IsDropped(ZeroWidthSpace)
  {
  }
}
