/** LaTeX-safe labels: `tex_escape` and `proper_units`. Both compile the keys
    of a replacement dictionary into one regular expression (an alternation
    tried longest key first) and rewrite the text in a single left-to-right
    pass with `re.sub`; that pass is `Substitute` here, defined once and used
    with both tables. */
module LatexStyle {
  import opened Common

  /** A replacement dictionary, listed in the order the compiled alternation
      tries its keys: sorted by decreasing key length, ties in dictionary
      order (Python's sort is stable). */
  type Table = seq<(string, string)>

  /** Every key is non-empty, so each match consumes text. */
  predicate NonEmptyKeys(table: Table)
  {
    forall k :: 0 <= k < |table| ==> |table[k].0| > 0
  }

  /** Keys are tried longest first. */
  predicate LongestFirst(table: Table)
  {
    forall p, q :: 0 <= p < q < |table| ==> |table[p].0| >= |table[q].0|
  }

  /** Keys are tried longest first as soon as no key is shorter than the
      one after it. */
  lemma {:induction false} AdjacentLongestFirst(table: Table)
    requires forall k :: 0 <= k < |table| - 1 ==> |table[k].0| >= |table[k + 1].0|
    ensures LongestFirst(table)
    decreases |table|
  {
    if |table| > 1 {
      AdjacentLongestFirst(table[1..]);
      forall p, q | 0 <= p < q < |table|
        ensures |table[p].0| >= |table[q].0|
      {
        if p > 0 {
          assert table[1..][p - 1] == table[p] && table[1..][q - 1] == table[q];
        } else if q > 1 {
          assert table[1..][0] == table[1] && table[1..][q - 1] == table[q];
        }
      }
    }
  }

  /** The alternative the regular expression takes at the start of `text`,
      trying the keys from position `i` of the table on: the first key that
      is a prefix of `text`, if any. */
  function MatchFrom(table: Table, text: string, i: nat): (r: Option<nat>)
    requires i <= |table|
    ensures r.Some? ==> i <= r.value < |table| && table[r.value].0 <= text
    ensures r.Some? ==> forall k :: i <= k < r.value ==> !(table[k].0 <= text)
    ensures r.None? ==> forall k :: i <= k < |table| ==> !(table[k].0 <= text)
    decreases |table| - i
  {
    if i == |table| then None
    else if table[i].0 <= text then Some(i)
    else MatchFrom(table, text, i + 1)
  }

  /** The alternative taken at the start of `text`. */
  function MatchAt(table: Table, text: string): (r: Option<nat>)
  {
    MatchFrom(table, text, 0)
  }

  /** Every value is at least as long as its key. */
  predicate Lengthening(table: Table)
  {
    forall k :: 0 <= k < |table| ==> |table[k].1| >= |table[k].0|
  }

  /** The characters the values of a table are written with. */
  function ValueChars(table: Table): set<char>
  {
    set k, c | 0 <= k < |table| && c in table[k].1 :: c
  }

  /** A character of a suffix is a character of the whole. */
  lemma SuffixChars(text: string, m: nat)
    requires m <= |text|
    ensures forall c :: c in text[m..] ==> c in text
  {
    forall c | c in text[m..]
      ensures c in text
    {
      var p :| 0 <= p < |text[m..]| && text[m..][p] == c;
      assert text[m + p] == c;
    }
  }

  /** `re.sub` with a dictionary lookup as the replacement: where a key
      starts, its value is written and the key skipped; elsewhere one
      character is copied. Replacement text is never scanned again, so the
      result holds only characters of the text and of the values, and a
      table whose values are never shorter than their keys never shortens
      the text. */
  function Substitute(table: Table, text: string): (r: string)
    requires NonEmptyKeys(table)
    ensures forall i :: 0 <= i < |r| ==> r[i] in text || r[i] in ValueChars(table)
    ensures Lengthening(table) ==> |r| >= |text|
    decreases |text|
  {
    if |text| == 0 then ""
    else match MatchAt(table, text)
      case Some(k) =>
        SuffixChars(text, |table[k].0|);
        assert forall c :: c in table[k].1 ==> c in ValueChars(table);
        table[k].1 + Substitute(table, text[|table[k].0|..])
      case None =>
        SuffixChars(text, 1);
        [text[0]] + Substitute(table, text[1..])
  }

  /** Where the first key that starts `text` is known, the pass writes its
      value and carries on after it. */
  lemma SubstituteMatch(table: Table, text: string, k: nat)
    requires NonEmptyKeys(table) && k < |table| && table[k].0 <= text
    requires forall q :: 0 <= q < k ==> !(table[q].0 <= text)
    ensures Substitute(table, text) == table[k].1 + Substitute(table, text[|table[k].0|..])
  {
    assert MatchAt(table, text) == Some(k);
  }

  /** No key is listed twice. */
  predicate DistinctKeys(table: Table)
  {
    forall p, q :: 0 <= p < q < |table| ==> table[p].0 != table[q].0
  }

  /** With keys tried longest first, the pass takes the longest key that
      starts `text`: where key `k` starts it and no longer key does, the
      pass writes its value and carries on after it. */
  lemma SubstituteLongest(table: Table, text: string, k: nat)
    requires NonEmptyKeys(table) && LongestFirst(table) && DistinctKeys(table)
    requires k < |table| && table[k].0 <= text
    requires forall q :: 0 <= q < |table| && table[q].0 <= text ==> |table[q].0| <= |table[k].0|
    ensures Substitute(table, text) == table[k].1 + Substitute(table, text[|table[k].0|..])
  {
    SubstituteMatch(table, text, k);
  }

  /** No key starts at any position of `text`. */
  predicate KeyFree(table: Table, text: string)
  {
    forall p, k :: 0 <= p < |text| && 0 <= k < |table| ==> !(table[k].0 <= text[p..])
  }

  /** Text in which no key occurs comes back unchanged. */
  lemma {:induction false} SubstituteKeyFree(table: Table, text: string)
    requires NonEmptyKeys(table) && KeyFree(table, text)
    ensures Substitute(table, text) == text
    decreases |text|
  {
    if |text| > 0 {
      assert text[0..] == text;
      assert MatchAt(table, text).None?;
      assert KeyFree(table, text[1..]) by {
        forall p, k | 0 <= p < |text[1..]| && 0 <= k < |table|
          ensures !(table[k].0 <= text[1..][p..])
        {
          assert text[1..][p..] == text[p + 1..];
        }
      }
      SubstituteKeyFree(table, text[1..]);
    }
  }

  /** Every key is a single character. */
  predicate SingleCharKeys(table: Table)
  {
    forall k :: 0 <= k < |table| ==> |table[k].0| == 1
  }

  /** What one character becomes under a table of one-character keys. */
  function Image(table: Table, c: char): (r: string)
    requires SingleCharKeys(table)
    ensures MatchAt(table, [c]).None? ==> r == [c]
  {
    match MatchAt(table, [c])
      case Some(k) => table[k].1
      case None => [c]
  }

  /** With one-character keys, the match at the head of `text` depends only
      on its first character. */
  lemma MatchAtHead(table: Table, text: string)
    requires SingleCharKeys(table) && |text| > 0
    ensures MatchAt(table, text) == MatchAt(table, [text[0]])
  {
    forall k | 0 <= k < |table|
      ensures table[k].0 <= text <==> table[k].0 <= [text[0]]
    {
      assert |table[k].0| == 1;
    }
  }

  /** With one-character keys the pass is a character-by-character map. */
  lemma {:induction false} SubstituteCons(table: Table, c: char, text: string)
    requires SingleCharKeys(table)
    ensures Substitute(table, [c] + text) == Image(table, c) + Substitute(table, text)
  {
    var s := [c] + text;
    MatchAtHead(table, s);
    assert s[0] == c;
    match MatchAt(table, [c])
      case Some(k) =>
        assert s[|table[k].0|..] == text;
      case None =>
        assert s[1..] == text;
  }

  /** Concatenation is associative. */
  lemma ConcatAssoc(a: string, b: string, c: string)
    ensures a + (b + c) == (a + b) + c
  {
  }

  /** With one-character keys the pass distributes over concatenation. */
  lemma {:induction false} SubstituteAppend(table: Table, s: string, t: string)
    requires SingleCharKeys(table)
    ensures Substitute(table, s + t) == Substitute(table, s) + Substitute(table, t)
    decreases |s|
  {
    if |s| > 0 {
      var rest := s[1..];
      assert s + t == [s[0]] + (rest + t);
      assert s == [s[0]] + rest;
      SubstituteCons(table, s[0], rest + t);
      SubstituteAppend(table, rest, t);
      SubstituteCons(table, s[0], rest);
      ConcatAssoc(Image(table, s[0]), Substitute(table, rest), Substitute(table, t));
    } else {
      assert s + t == t;
    }
  }

  // ---------------------------------------------------------------------
  // tex_escape

  /** The characters LaTeX treats specially and the text that typesets each one
      literally. All keys have length one, so the alternation tries them in
      dictionary order. */
  const TEX_CONV: Table := [
    ("&", "\\&"),
    ("%", "\\%"),
    ("$", "\\$"),
    ("#", "\\#"),
    ("_", "\\_"),
    ("{", "\\{"),
    ("}", "\\}"),
    ("~", "\\textasciitilde{}"),
    ("^", "\\^{}"),
    ("\\", "\\textbackslash{}"),
    ("<", "\\textless{}"),
    (">", "\\textgreater{}")
  ]

  /** Escape every LaTeX special character of `text` in one pass: nothing
      is dropped, so the result is never shorter, and every character it
      holds comes from the text or from an escape sequence. */
  function TexEscape(text: string): (r: string)
    ensures |r| >= |text|
    ensures forall i :: 0 <= i < |r| ==> r[i] in text || r[i] in ValueChars(TEX_CONV)
  {
    TexConvShape();
    Substitute(TEX_CONV, text)
  }

  /** Escaping the pieces and joining them is escaping the whole. */
  lemma TexEscapeAppend(s: string, t: string)
    ensures TexEscape(s + t) == TexEscape(s) + TexEscape(t)
  {
    TexConvShape();
    SubstituteAppend(TEX_CONV, s, t);
  }

  /** The characters the table escapes, in table order. */
  const TEX_SPECIALS: string := "&%$#_{}~^\\<>"

  /** Which character of an escape sequence tells it apart from the others:
      the second, or the sixth after `\text`. */
  function Mark(escape: string): char
    requires |escape| >= 2
  {
    if escape[1] == 't' && |escape| >= 6 then escape[5] else escape[1]
  }

  /** The keys of the table are the special characters, one each. */
  lemma TexKeys()
    ensures SingleCharKeys(TEX_CONV) && |TEX_CONV| == |TEX_SPECIALS|
    ensures forall k :: 0 <= k < |TEX_CONV| ==> TEX_CONV[k].0 == [TEX_SPECIALS[k]]
  {
    var keys := seq(12, k requires 0 <= k < 12 => TEX_CONV[k].0);
    assert keys == ["&", "%", "$", "#", "_", "{", "}", "~", "^", "\\", "<", ">"];
  }

  /** No character is listed twice, and the backslash is among them. */
  lemma TexSpecialsDistinct()
    ensures Distinct(TEX_SPECIALS) && TEX_SPECIALS[9] == '\\'
  {
  }

  /** Every escape sequence starts with a backslash, and the escape
      sequences have distinct marks. */
  lemma TexEscapesShape()
    ensures forall k :: 0 <= k < |TEX_CONV| ==>
      |TEX_CONV[k].1| >= 2 && TEX_CONV[k].1[0] == '\\' && (TEX_CONV[k].1[1] == 't' ==> |TEX_CONV[k].1| >= 6)
    ensures forall p, q :: 0 <= p < q < |TEX_CONV| ==> Mark(TEX_CONV[p].1) != Mark(TEX_CONV[q].1)
  {
    var marks := seq(12, k requires 0 <= k < 12 => Mark(TEX_CONV[k].1));
    assert marks == ['&', '%', '$', '#', '_', '{', '}', 'a', '^', 'b', 'l', 'g'];
  }

  /** The facts about the literal table the proofs use. */
  lemma TexConvShape()
    ensures SingleCharKeys(TEX_CONV) && |TEX_CONV| == |TEX_SPECIALS|
    ensures forall k :: 0 <= k < |TEX_CONV| ==> TEX_CONV[k].0 == [TEX_SPECIALS[k]]
    ensures Distinct(TEX_SPECIALS) && TEX_SPECIALS[9] == '\\'
    ensures forall k :: 0 <= k < |TEX_CONV| ==>
      |TEX_CONV[k].1| >= 2 && TEX_CONV[k].1[0] == '\\' && (TEX_CONV[k].1[1] == 't' ==> |TEX_CONV[k].1| >= 6)
    ensures forall p, q :: 0 <= p < q < |TEX_CONV| ==> Mark(TEX_CONV[p].1) != Mark(TEX_CONV[q].1)
  {
    TexKeys();
    TexSpecialsDistinct();
    TexEscapesShape();
  }

  /** A special character matches exactly its own table entry. */
  lemma MatchSpecial(c: char, k: nat)
    requires k < |TEX_CONV| && TEX_SPECIALS[k] == c
    ensures MatchAt(TEX_CONV, [c]) == Some(k)
  {
    TexConvShape();
    var m := MatchAt(TEX_CONV, [c]).value;
    assert TEX_SPECIALS[m] == c;
  }

  /** One one-character string starts another only when they are equal. */
  lemma SinglePrefix(x: char, c: char)
    ensures [x] <= [c] <==> x == c
  {
    assert [x] <= [c] ==> [x] == [c];
    assert [x] == [c] ==> [x][0] == [c][0];
  }

  /** Any other character matches no entry. */
  lemma MatchOrdinary(c: char)
    requires c !in TEX_SPECIALS
    ensures MatchAt(TEX_CONV, [c]).None?
  {
    TexConvShape();
    forall k | 0 <= k < |TEX_CONV|
      ensures !(TEX_CONV[k].0 <= [c])
    {
      SinglePrefix(TEX_SPECIALS[k], c);
    }
  }

  /** Each special character becomes its table entry; any other character is
      copied as it is. */
  lemma TexEscapeChar(c: char)
    ensures forall k :: 0 <= k < |TEX_SPECIALS| && TEX_SPECIALS[k] == c ==> TexEscape([c]) == TEX_CONV[k].1
    ensures c !in TEX_SPECIALS ==> TexEscape([c]) == [c]
  {
    TexConvShape();
    SubstituteCons(TEX_CONV, c, "");
    assert [c] + "" == [c];
    forall k | 0 <= k < |TEX_SPECIALS| && TEX_SPECIALS[k] == c
      ensures TexEscape([c]) == TEX_CONV[k].1
    {
      MatchSpecial(c, k);
    }
    if c !in TEX_SPECIALS {
      MatchOrdinary(c);
    }
  }

  /** Text without special characters is left as it is. */
  lemma TexEscapePlain(text: string)
    requires forall p :: 0 <= p < |text| ==> text[p] !in TEX_SPECIALS
    ensures TexEscape(text) == text
  {
    TexConvShape();
    forall p, k | 0 <= p < |text| && 0 <= k < |TEX_CONV|
      ensures !(TEX_CONV[k].0 <= text[p..])
    {
      assert text[p..][0] == text[p];
    }
    SubstituteKeyFree(TEX_CONV, text);
  }

  /** Lower-case letters are never escaped. */
  lemma TexEscapeLowercase(text: string)
    requires forall p :: 0 <= p < |text| ==> 'a' <= text[p] <= 'z'
    ensures TexEscape(text) == text
  {
    forall p | 0 <= p < |text|
      ensures text[p] !in TEX_SPECIALS
    {
      assert forall k :: 0 <= k < |TEX_SPECIALS| ==> !('a' <= TEX_SPECIALS[k] <= 'z');
    }
    TexEscapePlain(text);
  }

  /** The pass is not repeated: the backslash `&` gains is not escaped again,
      and a second application escapes it. */
  lemma TexEscapeSinglePass()
    ensures TexEscape("&") == "\\&"
    ensures TexEscape(TexEscape("&")) == "\\textbackslash{}\\&"
  {
    TexEscapeChar('&');
    TexEscapeChar('\\');
    assert TEX_SPECIALS[0] == '&' && TEX_SPECIALS[9] == '\\';
    TexEscapeAppend("\\", "&");
    assert "\\" + "&" == "\\&";
  }

  /** The table read backwards: each escape sequence and the character it
      stands for. */
  function Inverse(table: Table): (r: Table)
    ensures |r| == |table|
    ensures forall k :: 0 <= k < |table| ==> r[k] == (table[k].1, table[k].0)
  {
    seq(|table|, k requires 0 <= k < |table| => (table[k].1, table[k].0))
  }

  /** Reading escaped text back: every escape sequence becomes its character. */
  function TexUnescape(text: string): (r: string)
  {
    TexConvShape();
    Substitute(Inverse(TEX_CONV), text)
  }

  /** An escape sequence that is a prefix of another has the same mark. */
  lemma MarkPrefix(a: string, b: string)
    requires |a| >= 2 && |b| >= 2 && (a[1] == 't' ==> |a| >= 6)
    ensures a <= b ==> Mark(a) == Mark(b)
  {
    if a <= b {
      assert a[1] == b[1] && (a[1] == 't' ==> a[5] == b[5]);
    }
  }

  /** No escape sequence is a prefix of another. */
  lemma EscapesPrefixFree()
    ensures forall p, q :: 0 <= p < |TEX_CONV| && 0 <= q < |TEX_CONV| && p != q ==> !(TEX_CONV[p].1 <= TEX_CONV[q].1)
  {
    TexConvShape();
    forall p, q | 0 <= p < |TEX_CONV| && 0 <= q < |TEX_CONV| && p != q
      ensures !(TEX_CONV[p].1 <= TEX_CONV[q].1)
    {
      MarkPrefix(TEX_CONV[p].1, TEX_CONV[q].1);
    }
  }

  /** A string that neither is a prefix of `b` nor has `b` as a prefix is not
      a prefix of anything `b` starts. */
  lemma PrefixOfJoin(a: string, b: string, rest: string)
    requires !(a <= b) && !(b <= a)
    ensures !(a <= b + rest)
  {
    if |a| <= |b| {
      assert a <= b + rest ==> a <= b;
    } else {
      assert a <= b + rest ==> b <= a;
    }
  }

  /** An escape sequence in front of more text is read back as its
      character. */
  lemma {:induction false} UnescapeSpecial(k: nat, rest: string)
    requires k < |TEX_CONV|
    ensures TexUnescape(TEX_CONV[k].1 + rest) == TEX_CONV[k].0 + TexUnescape(rest)
  {
    TexConvShape();
    EscapesPrefixFree();
    var inv := Inverse(TEX_CONV);
    var s := TEX_CONV[k].1 + rest;
    assert s[..|TEX_CONV[k].1|] == TEX_CONV[k].1;
    forall q | 0 <= q < k
      ensures !(inv[q].0 <= s)
    {
      PrefixOfJoin(TEX_CONV[q].1, TEX_CONV[k].1, rest);
    }
    SubstituteMatch(inv, s, k);
    assert s[|inv[k].0|..] == rest;
  }

  /** Any other character is read back as itself. */
  lemma {:induction false} UnescapeOrdinary(c: char, rest: string)
    requires c != '\\'
    ensures TexUnescape([c] + rest) == [c] + TexUnescape(rest)
  {
    TexConvShape();
    var inv := Inverse(TEX_CONV);
    var s := [c] + rest;
    assert s[0] == c;
    assert MatchAt(inv, s).None? by {
      forall q | 0 <= q < |inv|
        ensures !(inv[q].0 <= s)
      {
        assert inv[q].0[0] == '\\';
      }
    }
    assert s[1..] == rest;
  }

  /** Unescaping the escape of one character and the rest gives the
      character back in front of the unescaped rest. */
  lemma {:induction false} UnescapeCons(c: char, rest: string)
    ensures TexUnescape(Image(TEX_CONV, c) + rest) == [c] + TexUnescape(rest)
  {
    TexConvShape();
    match MatchAt(TEX_CONV, [c])
      case Some(k) =>
        UnescapeSpecial(k, rest);
      case None =>
        assert c != '\\' by {
          assert TEX_CONV[9].0 == "\\";
        }
        UnescapeOrdinary(c, rest);
  }

  /** Escaping loses nothing: unescaping recovers the original text. */
  lemma {:induction false} TexUnescapeEscape(text: string)
    ensures TexUnescape(TexEscape(text)) == text
    decreases |text|
  {
    if |text| > 0 {
      assert text == [text[0]] + text[1..];
      TexConvShape();
      SubstituteCons(TEX_CONV, text[0], text[1..]);
      UnescapeCons(text[0], TexEscape(text[1..]));
      TexUnescapeEscape(text[1..]);
    }
  }

  /** Hence different texts never escape to the same text. */
  lemma TexEscapeInjective(s: string, t: string)
    requires TexEscape(s) == TexEscape(t)
    ensures s == t
  {
    TexUnescapeEscape(s);
    TexUnescapeEscape(t);
  }

  // ---------------------------------------------------------------------
  // proper_units

  /** The unit spellings found in data attributes (after `tex_escape`, hence
      the escaped underscores) and their typeset forms, longest key first. */
  const UNIT_CONV: Table := [
    ("degrees\\_celsius", "$^{\\circ}$C"),
    ("degrees\\_north", "$^{\\circ}$N"),
    ("degrees\\_east", "$^{\\circ}$E"),
    ("degrees\\_west", "$^{\\circ}$W"),
    ("I metric", "$\\mathcal{I}$--metric"),
    ("degK", "K"),
    ("degC", "$^{\\circ}$C")
  ]

  /** The unit table is in the order the alternation tries it. */
  lemma UnitConvLongestFirst()
    ensures NonEmptyKeys(UNIT_CONV) && LongestFirst(UNIT_CONV) && DistinctKeys(UNIT_CONV)
  {
    var lengths := [16, 14, 13, 13, 8, 4, 4];
    assert forall k :: 0 <= k < |UNIT_CONV| ==> |UNIT_CONV[k].0| == lengths[k];
    AdjacentLongestFirst(UNIT_CONV);
    forall p, q | 0 <= p < q < |UNIT_CONV|
      ensures UNIT_CONV[p].0 != UNIT_CONV[q].0
    {
      if lengths[p] == lengths[q] {
        if p == 2 {
          assert UNIT_CONV[2].0[9] != UNIT_CONV[3].0[9];
        } else {
          assert UNIT_CONV[5].0[3] != UNIT_CONV[6].0[3];
        }
      }
    }
  }

  /** Replace unit spellings by their typeset forms, left to right, each
      occurrence at most once: every character of the result comes from the
      label or from a typeset unit. */
  function ProperUnits(text: string): (r: string)
    ensures forall i :: 0 <= i < |r| ==> r[i] in text || r[i] in ValueChars(UNIT_CONV)
  {
    UnitConvLongestFirst();
    Substitute(UNIT_CONV, text)
  }

  /** One step of the pass over a label: where no unit spelling starts,
      the first character is copied and the pass goes on after it; where
      some do, the longest of them is replaced by its typeset form and the
      pass goes on after it. */
  lemma ProperUnitsStep(text: string)
    requires |text| > 0
    ensures (forall k :: 0 <= k < |UNIT_CONV| ==> !(UNIT_CONV[k].0 <= text)) ==>
      ProperUnits(text) == [text[0]] + ProperUnits(text[1..])
    ensures forall k :: (0 <= k < |UNIT_CONV| && UNIT_CONV[k].0 <= text
      && forall q :: 0 <= q < |UNIT_CONV| && UNIT_CONV[q].0 <= text ==> |UNIT_CONV[q].0| <= |UNIT_CONV[k].0|) ==>
      ProperUnits(text) == UNIT_CONV[k].1 + ProperUnits(text[|UNIT_CONV[k].0|..])
  {
    UnitConvLongestFirst();
    forall k | 0 <= k < |UNIT_CONV| && UNIT_CONV[k].0 <= text
      && (forall q :: 0 <= q < |UNIT_CONV| && UNIT_CONV[q].0 <= text ==> |UNIT_CONV[q].0| <= |UNIT_CONV[k].0|)
      ensures ProperUnits(text) == UNIT_CONV[k].1 + ProperUnits(text[|UNIT_CONV[k].0|..])
    {
      SubstituteLongest(UNIT_CONV, text, k);
    }
  }

  /** A label naming no unit is left as it is. */
  lemma ProperUnitsNoUnit(text: string)
    requires KeyFree(UNIT_CONV, text)
    ensures ProperUnits(text) == text
  {
    UnitConvLongestFirst();
    SubstituteKeyFree(UNIT_CONV, text);
  }

  /** A label that is just `degC` becomes a degree sign and C. */
  lemma ProperUnitsDegC()
    ensures ProperUnits("degC") == "$^{\\circ}$C"
  {
    UnitConvLongestFirst();
    forall q | 0 <= q < 6
      ensures !(UNIT_CONV[q].0 <= "degC")
    {
      if q == 5 {
        assert UNIT_CONV[5].0[3] != "degC"[3];
      }
    }
    SubstituteMatch(UNIT_CONV, "degC", 6);
    assert "degC"[4..] == "";
  }

  /** A label that is just `I metric` becomes the calligraphic I-metric. */
  lemma ProperUnitsIMetric()
    ensures ProperUnits("I metric") == "$\\mathcal{I}$--metric"
  {
    UnitConvLongestFirst();
    SubstituteMatch(UNIT_CONV, "I metric", 4);
    assert "I metric"[8..] == "";
  }

  /** `degrees_celsius` is two lower-case words joined by an underscore. */
  lemma CelsiusWords(raw: string)
    requires raw == "degrees_celsius"
    ensures raw == raw[..7] + ([raw[7]] + raw[8..])
    ensures raw[7] == TEX_SPECIALS[4]
    ensures forall p :: 0 <= p < 7 ==> 'a' <= raw[..7][p] <= 'z'
    ensures forall p :: 0 <= p < 7 ==> 'a' <= raw[8..][p] <= 'z'
    ensures raw[..7] + (TEX_CONV[4].1 + raw[8..]) == "degrees\\_celsius"
  {
  }

  /** `tex_escape` turns the attribute spelling `degrees_celsius` into the
      key spelling, escaping its underscore. */
  lemma EscapeCelsius(raw: string)
    requires raw == "degrees_celsius"
    ensures TexEscape(raw) == "degrees\\_celsius"
  {
    CelsiusWords(raw);
    var front, back := raw[..7], raw[8..];
    TexEscapeLowercase(front);
    TexEscapeLowercase(back);
    TexEscapeChar(raw[7]);
    TexEscapeAppend(front, [raw[7]] + back);
    TexEscapeAppend([raw[7]], back);
  }

  /** Unescaped, `degrees_celsius` contains no unit key. */
  lemma CelsiusNoUnit(raw: string)
    requires raw == "degrees_celsius"
    ensures KeyFree(UNIT_CONV, raw)
  {
    forall p, k | 0 <= p < |raw| && 0 <= k < |UNIT_CONV|
      ensures !(UNIT_CONV[k].0 <= raw[p..])
    {
      if k < 4 {
        assert UNIT_CONV[k].0[7] == '\\';
      } else if k == 4 {
        assert UNIT_CONV[k].0[1] == ' ';
      } else {
        assert UNIT_CONV[k].0[3] in "KC";
      }
    }
  }

  /** Labels are escaped before units are typeset, which is why the unit
      keys spell the underscore escaped: the raw attribute text
      `degrees_celsius` becomes a degree sign, while unescaped it is no
      unit at all. */
  lemma EscapedCelsius(raw: string)
    requires raw == "degrees_celsius"
    ensures ProperUnits(TexEscape(raw)) == "$^{\\circ}$C"
    ensures ProperUnits(raw) == raw
  {
    EscapeCelsius(raw);
    var escaped := TexEscape(raw);
    UnitConvLongestFirst();
    SubstituteMatch(UNIT_CONV, escaped, 0);
    assert escaped[16..] == "";
    CelsiusNoUnit(raw);
    ProperUnitsNoUnit(raw);
  }
}
