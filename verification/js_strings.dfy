/**
 * The JavaScript string operations the scraper relies on, with the
 * ECMAScript semantics: `trim()`, `split(' ')` and `replace(',', '.')`.
 */
module JsStrings {

  /**
   * ECMAScript WhiteSpace and LineTerminator code points: tab, vertical tab,
   * form feed, the byte order mark, every space separator (category Zs) and
   * LF, CR, LINE SEPARATOR, PARAGRAPH SEPARATOR. `trim()`, `parseInt` and
   * `parseFloat` all skip exactly these.
   */
  predicate IsJsWhitespace(c: char)
  {
    var n := c as int;
    || n == 0x09 || n == 0x0B || n == 0x0C || n == 0x20 || n == 0xA0 || n == 0xFEFF
    || n == 0x1680 || (0x2000 <= n <= 0x200A) || n == 0x202F || n == 0x205F || n == 0x3000
    || n == 0x0A || n == 0x0D || n == 0x2028 || n == 0x2029
  }

  predicate AllWhitespace(s: string)
  {
    forall i :: 0 <= i < |s| ==> IsJsWhitespace(s[i])
  }

  /** Drops leading whitespace (the "start" half of `trim()`). */
  function TrimStart(s: string): (r: string)
    ensures |r| <= |s| && r == s[|s| - |r|..]
    ensures AllWhitespace(s[..|s| - |r|])
    ensures r == [] || !IsJsWhitespace(r[0])
  {
    if s != [] && IsJsWhitespace(s[0]) then
      var r := TrimStart(s[1..]);
      var cut := s[..|s| - |r|];
      assert cut == [s[0]] + s[1..][..|s[1..]| - |r|];
      assert forall i :: 0 <= i < |cut| ==> IsJsWhitespace(cut[i]);
      r
    else s
  }

  /** Drops trailing whitespace (the "end" half of `trim()`). */
  function TrimEnd(s: string): (r: string)
    ensures |r| <= |s| && r == s[..|r|]
    ensures AllWhitespace(s[|r|..])
    ensures r == [] || !IsJsWhitespace(r[|r| - 1])
  {
    if s != [] && IsJsWhitespace(s[|s| - 1]) then
      var r := TrimEnd(s[..|s| - 1]);
      var cut := s[|r|..];
      assert cut == s[..|s| - 1][|r|..] + [s[|s| - 1]];
      assert forall i :: 0 <= i < |cut| ==> IsJsWhitespace(cut[i]);
      r
    else s
  }

  /** `String.prototype.trim()`. */
  function Trim(s: string): string
  {
    TrimEnd(TrimStart(s))
  }

  /** Whitespace in front of a text that does not start with whitespace is all `TrimStart` removes. */
  lemma {:induction false} TrimStartWhitespacePrefix(lead: string, s: string)
    requires AllWhitespace(lead)
    requires s == [] || !IsJsWhitespace(s[0])
    ensures TrimStart(lead + s) == s
  {
    if lead == [] {
      assert lead + s == s;
    } else {
      assert (lead + s)[0] == lead[0];
      assert (lead + s)[1..] == lead[1..] + s;
      assert AllWhitespace(lead[1..]) by {
        forall i | 0 <= i < |lead[1..]| ensures IsJsWhitespace(lead[1..][i]) {
          assert lead[1..][i] == lead[i + 1];
        }
      }
      TrimStartWhitespacePrefix(lead[1..], s);
    }
  }

  /** Trimming twice is trimming once. */
  lemma TrimIdempotent(s: string)
    ensures Trim(Trim(s)) == Trim(s)
  {
    var r := Trim(s);
    if r != [] {
      assert TrimStart(r) == r;
      assert TrimEnd(r) == r;
    }
  }

  /**
   * `s.split(' ')`: the pieces between single spaces. Consecutive spaces give
   * empty pieces and the empty string splits into one empty piece.
   */
  function Split(s: string): (r: seq<string>)
    ensures |r| >= 1
    ensures forall k :: 0 <= k < |r| ==> ' ' !in r[k]
  {
    if s == [] then [""]
    else if s[0] == ' ' then [""] + Split(s[1..])
    else
      var rest := Split(s[1..]);
      [[s[0]] + rest[0]] + rest[1..]
  }

  /** `tokens.join(' ')`, the inverse of `Split`. */
  function Join(tokens: seq<string>): string
  {
    if tokens == [] then ""
    else if |tokens| == 1 then tokens[0]
    else tokens[0] + " " + Join(tokens[1..])
  }

  /** Splitting and joining back gives the original text. */
  lemma {:induction false} JoinSplit(s: string)
    ensures Join(Split(s)) == s
  {
    if s == [] {
    } else if s[0] == ' ' {
      JoinSplit(s[1..]);
      assert s == " " + s[1..];
    } else {
      var rest := Split(s[1..]);
      JoinSplit(s[1..]);
      if |rest| == 1 {
        assert s == [s[0]] + rest[0];
      } else {
        assert rest == [rest[0]] + rest[1..];
        assert Join(rest) == rest[0] + " " + Join(rest[1..]);
        assert s == [s[0]] + rest[0] + " " + Join(rest[1..]);
      }
    }
  }

  /** Joining space-free pieces and splitting again gives the same pieces. */
  lemma {:induction false} SplitJoin(tokens: seq<string>)
    requires |tokens| >= 1
    requires forall k :: 0 <= k < |tokens| ==> ' ' !in tokens[k]
    ensures Split(Join(tokens)) == tokens
  {
    if |tokens| == 1 {
      SplitNoSpace(tokens[0]);
    } else {
      SplitJoin(tokens[1..]);
      SplitPrefix(tokens[0], Join(tokens[1..]));
      assert tokens == [tokens[0]] + tokens[1..];
    }
  }

  /** A space-free text is a single piece. */
  lemma {:induction false} SplitNoSpace(t: string)
    requires ' ' !in t
    ensures Split(t) == [t]
  {
    if t != [] {
      assert ' ' !in t[1..] by { assert forall c :: c in t[1..] ==> c in t; }
      SplitNoSpace(t[1..]);
      assert t[0] != ' ';
      assert [t[0]] + t[1..] == t;
    }
  }

  /** A space-free piece followed by a space becomes the first token. */
  lemma {:induction false} SplitPrefix(t: string, rest: string)
    requires ' ' !in t
    ensures Split(t + " " + rest) == [t] + Split(rest)
  {
    if t == [] {
      assert t + " " + rest == [' '] + rest;
      assert (t + " " + rest)[1..] == rest;
    } else {
      assert ' ' !in t[1..] by { assert forall c :: c in t[1..] ==> c in t; }
      SplitPrefix(t[1..], rest);
      assert (t + " " + rest)[1..] == t[1..] + " " + rest;
      assert [t[0]] + t[1..] == t;
    }
  }

  /** The first token is empty exactly when the text is empty or starts with a space. */
  lemma FirstTokenEmpty(s: string)
    ensures Split(s)[0] == "" <==> (s == [] || s[0] == ' ')
  {
  }

  /** The text begins with its first token, followed by a space or the end. */
  lemma {:induction false} FirstTokenIsPrefix(s: string)
    ensures var t := Split(s)[0];
      |t| <= |s| && t == s[..|t|] && (|t| == |s| || s[|t|] == ' ')
  {
    if s != [] && s[0] != ' ' {
      FirstTokenIsPrefix(s[1..]);
    }
  }

  /** A space-free prefix belongs to the first token. */
  lemma {:induction false} FirstTokenOfPrefix(p: string, rest: string)
    requires ' ' !in p
    ensures Split(p + rest)[0] == p + Split(rest)[0]
  {
    if p == [] {
      assert p + rest == rest;
    } else {
      assert ' ' !in p[1..] by { assert forall c :: c in p[1..] ==> c in p; }
      FirstTokenOfPrefix(p[1..], rest);
      assert (p + rest)[1..] == p[1..] + rest;
      assert [p[0]] + p[1..] == p;
    }
  }

  /**
   * When there is a second token, the text begins with the first token, a
   * space and the second token, followed by a space or the end.
   */
  lemma SecondTokenLocation(s: string)
    requires |Split(s)| >= 2
    ensures var t0, t1 := Split(s)[0], Split(s)[1];
      && |t0| + 1 + |t1| <= |s|
      && s[..|t0| + 1 + |t1|] == t0 + " " + t1
      && (|t0| + 1 + |t1| == |s| || s[|t0| + 1 + |t1|] == ' ')
  {
    var tokens := Split(s);
    JoinSplit(s);
    assert tokens == [tokens[0]] + tokens[1..];
    var tail := Join(tokens[1..]);
    assert s == tokens[0] + " " + tail;
    SplitJoin(tokens[1..]);
    FirstTokenIsPrefix(tail);
    assert s[|tokens[0]| + 1..] == tail;
  }

  /** One more piece than there are spaces. */
  lemma {:induction false} SplitCount(s: string)
    ensures |Split(s)| == SpaceCount(s) + 1
  {
    if s != [] {
      SplitCount(s[1..]);
    }
  }

  function SpaceCount(s: string): nat
  {
    if s == [] then 0 else (if s[0] == ' ' then 1 else 0) + SpaceCount(s[1..])
  }

  /** `s.replace(from, to)` with a one-character pattern: only the first match is replaced. */
  function ReplaceFirst(s: string, from: char, to: char): (r: string)
    ensures |r| == |s|
  {
    if s == [] then []
    else if s[0] == from then [to] + s[1..]
    else [s[0]] + ReplaceFirst(s[1..], from, to)
  }

  /** Without a match nothing changes. */
  lemma {:induction false} ReplaceFirstAbsent(s: string, from: char, to: char)
    requires from !in s
    ensures ReplaceFirst(s, from, to) == s
  {
    if s != [] {
      assert from !in s[1..] by { assert forall c :: c in s[1..] ==> c in s; }
      ReplaceFirstAbsent(s[1..], from, to);
    }
  }

  /**
   * With a match, exactly the first occurrence is replaced: the characters
   * before it contain no match, and every later character, including later
   * matches, is kept.
   */
  lemma {:induction false} ReplaceFirstAt(s: string, from: char, to: char, k: nat)
    requires k < |s| && s[k] == from && from !in s[..k]
    ensures ReplaceFirst(s, from, to) == s[..k] + [to] + s[k + 1..]
  {
    if k > 0 {
      assert from !in s[1..][..k - 1] by {
        assert forall c :: c in s[1..][..k - 1] ==> c in s[..k];
      }
      ReplaceFirstAt(s[1..], from, to, k - 1);
      assert s[..k] == [s[0]] + s[1..][..k - 1];
    }
  }
}
