/** The tag-field parse of the new-book form
    (`tags.split(",").map((t) => t.trim()).filter(Boolean)`), built from
    JavaScript's `String#split` on one character, `String#trim` and the
    truthiness of strings (only `""` is falsy). */
module TagParsing {
  import Seqs

  /** The characters `String#trim` removes: ECMAScript WhiteSpace (TAB, VT,
      FF, ZWNBSP and the space separators) and LineTerminator (LF, CR, LS, PS). */
  predicate IsWhitespace(c: char)
  {
    var n := c as int;
    n == 0x09 || n == 0x0A || n == 0x0B || n == 0x0C || n == 0x0D || n == 0x20
    || n == 0xA0 || n == 0x1680 || (0x2000 <= n <= 0x200A) || n == 0x2028 || n == 0x2029
    || n == 0x202F || n == 0x205F || n == 0x3000 || n == 0xFEFF
  }

  predicate AllWhitespace(s: string)
  {
    forall i :: 0 <= i < |s| ==> IsWhitespace(s[i])
  }

  /** Neither end of `s` is whitespace. */
  predicate Trimmed(s: string)
  {
    s == [] || (!IsWhitespace(s[0]) && !IsWhitespace(s[|s| - 1]))
  }

  /** `s.split(sep)`: the maximal `sep`-free pieces between separators;
      `"".split(",")` is `[""]`. */
  function Split(s: string, sep: char): (parts: seq<string>)
    ensures |parts| >= 1
    ensures forall i :: 0 <= i < |parts| ==> sep !in parts[i]
  {
    if s == [] then [""]
    else
      var rest := Split(s[1..], sep);
      if s[0] == sep then [""] + rest
      else [[s[0]] + rest[0]] + rest[1..]
  }

  /** `parts.join(sep)`. */
  function Join(parts: seq<string>, sep: char): string
  {
    if |parts| == 0 then ""
    else if |parts| == 1 then parts[0]
    else parts[0] + [sep] + Join(parts[1..], sep)
  }

  /** Splitting at a separator splits the two sides independently. */
  lemma {:induction false} SplitAround(a: string, sep: char, b: string)
    ensures Split(a + [sep] + b, sep) == Split(a, sep) + Split(b, sep)
  {
    if a == [] {
      assert a + [sep] + b == [sep] + b;
      assert ([sep] + b)[1..] == b;
    } else {
      var s := a + [sep] + b;
      assert s[0] == a[0];
      assert s[1..] == a[1..] + [sep] + b;
      SplitAround(a[1..], sep, b);
    }
  }

  /** A separator-free string is one piece. */
  lemma {:induction false} SplitWithoutSeparator(s: string, sep: char)
    requires sep !in s
    ensures Split(s, sep) == [s]
  {
    if s != [] {
      SplitWithoutSeparator(s[1..], sep);
      assert [s[0]] + s[1..] == s;
    }
  }

  /** Joining the pieces gives the input back. */
  lemma {:induction false} JoinSplit(s: string, sep: char)
    ensures Join(Split(s, sep), sep) == s
  {
    if sep !in s {
      SplitWithoutSeparator(s, sep);
    } else {
      var k :| 0 <= k < |s| && s[k] == sep;
      assert s == s[..k] + [sep] + s[k + 1..];
      SplitAround(s[..k], sep, s[k + 1..]);
      JoinSplit(s[..k], sep);
      JoinSplit(s[k + 1..], sep);
      JoinAppend(Split(s[..k], sep), Split(s[k + 1..], sep), sep);
    }
  }

  lemma {:induction false} JoinAppend(a: seq<string>, b: seq<string>, sep: char)
    requires |a| >= 1 && |b| >= 1
    ensures Join(a + b, sep) == Join(a, sep) + [sep] + Join(b, sep)
  {
    if |a| == 1 {
      assert (a + b)[1..] == b;
    } else {
      assert (a + b)[1..] == a[1..] + b;
      JoinAppend(a[1..], b, sep);
    }
  }

  /** Splitting the join of separator-free pieces gives the pieces back. */
  lemma {:induction false} SplitJoin(parts: seq<string>, sep: char)
    requires |parts| >= 1
    requires forall i :: 0 <= i < |parts| ==> sep !in parts[i]
    ensures Split(Join(parts, sep), sep) == parts
  {
    if |parts| == 1 {
      SplitWithoutSeparator(parts[0], sep);
    } else {
      SplitWithoutSeparator(parts[0], sep);
      SplitJoin(parts[1..], sep);
      SplitAround(parts[0], sep, Join(parts[1..], sep));
    }
  }

  /** `s.trimStart()`: drops the leading whitespace and nothing else. */
  function TrimStart(s: string): (r: string)
    ensures |r| <= |s| && r == s[|s| - |r|..]
    ensures r == [] || !IsWhitespace(r[0])
    ensures forall i :: 0 <= i < |s| - |r| ==> IsWhitespace(s[i])
  {
    if s != [] && IsWhitespace(s[0]) then TrimStart(s[1..]) else s
  }

  /** `s.trimEnd()`: drops the trailing whitespace and nothing else. */
  function TrimEnd(s: string): (r: string)
    ensures |r| <= |s| && r == s[..|r|]
    ensures r == [] || !IsWhitespace(r[|r| - 1])
    ensures forall i :: |r| <= i < |s| ==> IsWhitespace(s[i])
  {
    if s != [] && IsWhitespace(s[|s| - 1]) then TrimEnd(s[..|s| - 1]) else s
  }

  /** The number of whitespace characters `s` starts with. */
  function Leading(s: string): nat
  {
    |s| - |TrimStart(s)|
  }

  /** `s.trim()`: the longest substring of `s` between leading and trailing whitespace. */
  function Trim(s: string): (r: string)
    ensures Trimmed(r)
    ensures forall c :: c in r ==> c in s
    ensures r == [] <==> AllWhitespace(s)
    ensures Trimmed(s) ==> r == s
  {
    var t := TrimStart(s);
    var r := TrimEnd(t);
    assert forall c :: c in t ==> c in s by {
      forall c | c in t ensures c in s {
        var i :| 0 <= i < |t| && t[i] == c;
        assert s[|s| - |t| + i] == c;
      }
    }
    assert r != [] ==> r[0] == t[0];
    r
  }

  /** The text `trim()` keeps is the contiguous run of the input that starts
      after its `Leading(s)` whitespace characters, with only whitespace
      before and after it. */
  lemma TrimIsMiddle(s: string)
    ensures var r := Trim(s); var i := Leading(s);
      && i + |r| <= |s| && r == s[i..i + |r|] && AllWhitespace(s[..i]) && AllWhitespace(s[i + |r|..])
  {
    var t := TrimStart(s);
    var r := TrimEnd(t);
    assert r == Trim(s);
    var i := Leading(s);
    assert t == s[i..];
    var head, tail := s[..i], s[i + |r|..];
    forall k | 0 <= k < |head| ensures IsWhitespace(head[k]) {
      assert head[k] == s[k];
    }
    forall k | 0 <= k < |tail| ensures IsWhitespace(tail[k]) {
      assert tail[k] == t[|r| + k];
    }
  }

  predicate IsNonEmpty(t: string)
  {
    t != ""
  }

  /** The tags the form sends: pieces between commas, trimmed, empty ones dropped. */
  function ParseTags(s: string): (tags: seq<string>)
    ensures forall i :: 0 <= i < |tags| ==> tags[i] != "" && Trimmed(tags[i]) && ',' !in tags[i]
  {
    var parts := Split(s, ',');
    var trimmed := Seqs.Map(parts, Trim);
    assert forall i :: 0 <= i < |trimmed| ==> Trimmed(trimmed[i]) && ',' !in trimmed[i] by {
      forall i | 0 <= i < |trimmed| ensures Trimmed(trimmed[i]) && ',' !in trimmed[i] {
        assert trimmed[i] == Trim(parts[i]);
      }
    }
    Seqs.Filter(trimmed, IsNonEmpty)
  }

  /** Text on either side of a comma is parsed independently, and the tags keep
      the order of the pieces they come from. */
  lemma ParseTagsAround(a: string, b: string)
    ensures ParseTags(a + "," + b) == ParseTags(a) + ParseTags(b)
  {
    SplitAround(a, ',', b);
    var pa, pb := Split(a, ','), Split(b, ',');
    Seqs.MapAppend(pa, pb, Trim);
    Seqs.FilterAppend(Seqs.Map(pa, Trim), Seqs.Map(pb, Trim), IsNonEmpty);
  }

  /** A comma-free piece gives no tag when it is all whitespace, and its
      trimmed text as the one tag otherwise. */
  lemma ParsePiece(p: string)
    requires ',' !in p
    ensures AllWhitespace(p) ==> ParseTags(p) == []
    ensures !AllWhitespace(p) ==> ParseTags(p) == [Trim(p)]
  {
    SplitWithoutSeparator(p, ',');
    assert Seqs.Map([p], Trim) == [Trim(p)];
    if !AllWhitespace(p) {
      assert Seqs.Filter([Trim(p)], IsNonEmpty) == [Trim(p)] + Seqs.Filter([], IsNonEmpty);
    } else {
      assert Seqs.Filter([Trim(p)], IsNonEmpty) == Seqs.Filter([], IsNonEmpty);
    }
  }

  /** Every character is whitespace or a comma. */
  predicate Blank(s: string)
  {
    forall i :: 0 <= i < |s| ==> IsWhitespace(s[i]) || s[i] == ','
  }

  lemma {:induction false} BlankIffPiecesWhitespace(s: string)
    ensures Blank(s) <==> forall p :: p in Split(s, ',') ==> AllWhitespace(p)
  {
    if s != [] {
      BlankIffPiecesWhitespace(s[1..]);
      var rest := Split(s[1..], ',');
      assert Blank(s) <==> (IsWhitespace(s[0]) || s[0] == ',') && Blank(s[1..]) by {
        if (IsWhitespace(s[0]) || s[0] == ',') && Blank(s[1..]) {
          forall i | 0 <= i < |s| ensures IsWhitespace(s[i]) || s[i] == ',' {
            if i > 0 { assert s[i] == s[1..][i - 1]; }
          }
        }
      }
      if s[0] == ',' {
        assert Split(s, ',') == [""] + rest;
      } else {
        var first := [s[0]] + rest[0];
        assert Split(s, ',') == [first] + rest[1..];
        assert AllWhitespace(first) <==> IsWhitespace(s[0]) && AllWhitespace(rest[0]) by {
          if IsWhitespace(s[0]) && AllWhitespace(rest[0]) {
            forall i | 0 <= i < |first| ensures IsWhitespace(first[i]) {
              if i > 0 { assert first[i] == rest[0][i - 1]; }
            }
          }
          if AllWhitespace(first) {
            assert first[0] == s[0];
            forall i | 0 <= i < |rest[0]| ensures IsWhitespace(rest[0][i]) {
              assert rest[0][i] == first[i + 1];
            }
          }
        }
        assert rest == [rest[0]] + rest[1..];
      }
    }
  }

  /** The parse is empty exactly when the input holds nothing but whitespace
      and commas (in particular for the empty input). */
  lemma ParseTagsEmptyIffBlank(s: string)
    ensures ParseTags(s) == [] <==> Blank(s)
  {
    BlankIffPiecesWhitespace(s);
    var parts := Split(s, ',');
    var trimmed := Seqs.Map(parts, Trim);
    var tags := Seqs.Filter(trimmed, IsNonEmpty);
    if tags == [] {
      forall p | p in parts ensures AllWhitespace(p) {
        var i :| 0 <= i < |parts| && parts[i] == p;
        assert trimmed[i] in trimmed;
        assert multiset(tags)[trimmed[i]] == 0;
      }
    } else {
      assert tags[0] in trimmed;
      var i :| 0 <= i < |trimmed| && trimmed[i] == tags[0];
      assert parts[i] in parts;
    }
  }

  /** Already-parsed tags survive a second parse of their comma-join unchanged. */
  lemma {:induction false} ParseJoinedTags(tags: seq<string>)
    requires forall i :: 0 <= i < |tags| ==> tags[i] != "" && Trimmed(tags[i]) && ',' !in tags[i]
    ensures ParseTags(Join(tags, ',')) == tags
  {
    if |tags| == 0 {
      ParseTagsEmptyIffBlank("");
    } else if |tags| == 1 {
      ParseOneTag(tags[0]);
    } else {
      var tail := tags[1..];
      ParseJoinedTags(tail);
      ParseOneTag(tags[0]);
      assert Join(tags, ',') == tags[0] + "," + Join(tail, ',');
      ParseTagsAround(tags[0], Join(tail, ','));
      assert tags == [tags[0]] + tail;
    }
  }

  lemma ParseOneTag(t: string)
    requires t != "" && Trimmed(t) && ',' !in t
    ensures ParseTags(t) == [t]
  {
    SplitWithoutSeparator(t, ',');
    assert Seqs.Map([t], Trim) == [t];
    assert Seqs.Filter([t], IsNonEmpty) == [t] + Seqs.Filter([], IsNonEmpty);
  }

  /** Parsing is idempotent: re-parsing the comma-joined result gives the same tags. */
  lemma ParseTagsIdempotent(s: string)
    ensures ParseTags(Join(ParseTags(s), ',')) == ParseTags(s)
  {
    ParseJoinedTags(ParseTags(s));
  }
}
