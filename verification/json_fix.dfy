/** The JSON auto-correction pipeline of `correct_json` (json_utils.py; the
    line numbers below refer to that file): a fixed sequence of text rewrites
    that turns hand-written, JavaScript-flavoured JSON into text the JSON
    parser is more likely to accept. Tabs become four spaces, single quotes
    become double quotes, block comments are deleted, commas before a
    closing brace or bracket are dropped, and bare object keys are quoted.

    The regular-expression rewrites are modelled as left-to-right scanners
    with the semantics of a regular-expression substitution: at each
    position the pattern is tried, a match is replaced and scanning resumes
    after it, and a position where the pattern fails is copied unchanged. */
module JsonFix {
  import opened Wrappers

  /** The characters the regular-expression class `\s` matches in a text
      pattern: those the language's whitespace test accepts, by code point. */
  predicate IsSpace(c: char) {
    var n := c as int;
    (9 <= n <= 13) || (28 <= n <= 32) || n == 0x85 || n == 0xA0 || n == 0x1680
    || (0x2000 <= n <= 0x200A) || n == 0x2028 || n == 0x2029 || n == 0x202F
    || n == 0x205F || n == 0x3000
  }

  // ---------------------------------------------------------------------
  // Sequence identities the scanner proofs cite instead of re-deriving
  // them element by element
  // ---------------------------------------------------------------------

  lemma SliceCons(s: string, i: nat, j: nat)
    requires i < j <= |s|
    ensures s[i..j] == [s[i]] + s[i + 1..j]
  {
  }

  lemma SliceSplit(s: string, i: nat, j: nat)
    requires i <= j <= |s|
    ensures s[i..] == s[i..j] + s[j..]
  {
  }

  lemma TailOfAppend(a: string, t: string)
    requires |a| > 0
    ensures (a + t)[0] == a[0] && (a + t)[1..] == a[1..] + t
  {
  }

  lemma ConsAppend(a: string, x: string)
    requires |a| > 0
    ensures [a[0]] + (a[1..] + x) == a + x
  {
    assert a == [a[0]] + a[1..];
  }

  lemma Assoc(a: string, b: string, c: string)
    ensures a + (b + c) == (a + b) + c
  {
  }

  lemma SliceJoin(s: string, a: nat, b: nat, c: nat, x: string)
    requires a <= b <= c <= |s|
    ensures s[a..b] + (s[b..c] + x) == s[a..c] + x
  {
    assert s[a..c] == s[a..b] + s[b..c];
  }

  lemma SlicePair(s: string, i: nat)
    requires i + 1 < |s|
    ensures s[i..i + 2] == [s[i], s[i + 1]]
  {
  }

  lemma QuotedOne(c: char, rest: string)
    ensures ['"'] + [c] + ['"', ':'] + rest == ['"', c, '"', ':'] + rest
  {
  }

  // ---------------------------------------------------------------------
  // Character replacement: tabs and single quotes
  // ---------------------------------------------------------------------

  /** Every occurrence of `c` in `s` replaced by `sub`. */
  function ReplaceChar(s: string, c: char, sub: string): (r: string)
    ensures c !in s ==> r == s
    ensures c !in sub ==> c !in r
    decreases |s|
  {
    if |s| == 0 then []
    else (if s[0] == c then sub else [s[0]]) + ReplaceChar(s[1..], c, sub)
  }

  /** Each `c` grows the text by `|sub| - 1`. */
  lemma {:induction false} ReplaceCharLength(s: string, c: char, sub: string)
    ensures |ReplaceChar(s, c, sub)| == |s| + (|sub| - 1) * multiset(s)[c]
    decreases |s|
  {
    if |s| > 0 {
      var n := multiset(s[1..])[c];
      var rest := |ReplaceChar(s[1..], c, sub)|;
      ReplaceCharLength(s[1..], c, sub);
      CountCons(s, c);
      if s[0] == c {
        assert |ReplaceChar(s, c, sub)| == |sub| + rest;
        DistributeOne(|sub| - 1, n);
      } else {
        assert |ReplaceChar(s, c, sub)| == 1 + rest;
      }
    }
  }

  lemma CountCons(s: string, c: char)
    requires |s| > 0
    ensures multiset(s)[c] == multiset(s[1..])[c] + (if s[0] == c then 1 else 0)
  {
    assert s == [s[0]] + s[1..];
    assert multiset(s) == multiset([s[0]]) + multiset(s[1..]);
  }

  lemma DistributeOne(k: int, n: int)
    ensures k * (n + 1) == k * n + k
  {
  }

  /** A character that is neither `c` nor in `sub` occurs as often as before. */
  lemma {:induction false} ReplaceCharKeeps(s: string, c: char, sub: string, x: char)
    requires x != c && x !in sub
    ensures multiset(ReplaceChar(s, c, sub))[x] == multiset(s)[x]
    decreases |s|
  {
    if |s| > 0 {
      var head := if s[0] == c then sub else [s[0]];
      var rest := ReplaceChar(s[1..], c, sub);
      ReplaceCharKeeps(s[1..], c, sub, x);
      CountCons(s, x);
      assert multiset(head + rest) == multiset(head) + multiset(rest);
      assert multiset(head)[x] == (if s[0] == x then 1 else 0) by {
        if s[0] == c {
          assert x !in head;
        }
      }
    }
  }

  /** Replacement works piece by piece: the image of a concatenation is the
      concatenation of the images. */
  lemma {:induction false} ReplaceCharAppend(a: string, b: string, c: char, sub: string)
    ensures ReplaceChar(a + b, c, sub) == ReplaceChar(a, c, sub) + ReplaceChar(b, c, sub)
    decreases |a|
  {
    if |a| > 0 {
      var head := if a[0] == c then sub else [a[0]];
      assert (a + b)[0] == a[0];
      assert (a + b)[1..] == a[1..] + b;
      ReplaceCharAppend(a[1..], b, c, sub);
      assert ReplaceChar(a + b, c, sub) == head + ReplaceChar(a[1..] + b, c, sub);
      assert ReplaceChar(a, c, sub) == head + ReplaceChar(a[1..], c, sub);
    } else {
      assert a + b == b;
    }
  }

  /** Replacing a character by a single character keeps every position: the
      result holds `d` where `s` holds `c` and agrees with `s` elsewhere. */
  lemma {:induction false} ReplaceCharPointwise(s: string, c: char, d: char)
    ensures |ReplaceChar(s, c, [d])| == |s|
    ensures forall i :: 0 <= i < |s| ==>
              ReplaceChar(s, c, [d])[i] == (if s[i] == c then d else s[i])
    decreases |s|
  {
    if |s| > 0 {
      ReplaceCharPointwise(s[1..], c, d);
    }
  }

  /** Line 41: every tab becomes four spaces. */
  function TabsToSpaces(s: string): (r: string)
    ensures '\t' !in r
    ensures |r| == |s| + 3 * multiset(s)['\t']
    ensures forall x :: x != '\t' && x != ' ' ==> multiset(r)[x] == multiset(s)[x]
  {
    var sub := "    ";
    assert |sub| - 1 == 3 && forall x :: x in sub ==> x == ' ';
    ReplaceCharLength(s, '\t', sub);
    forall x | x != '\t' && x != ' '
      ensures multiset(ReplaceChar(s, '\t', sub))[x] == multiset(s)[x]
    {
      ReplaceCharKeeps(s, '\t', sub, x);
    }
    ReplaceChar(s, '\t', sub)
  }

  /** Line 44: every single quote becomes a double quote. */
  function QuotesToDouble(s: string): (r: string)
    ensures '\'' !in r && |r| == |s|
    ensures forall i :: 0 <= i < |s| ==> r[i] == (if s[i] == '\'' then '"' else s[i])
  {
    ReplaceCharPointwise(s, '\'', '"');
    ReplaceChar(s, '\'', "\"")
  }

  // ---------------------------------------------------------------------
  // Block comments: `/\*.*?\*/`, matching across lines
  // ---------------------------------------------------------------------

  /** A comment opener, slash then star, starts at position `k`. */
  predicate OpenerAt(s: string, k: int) {
    0 <= k && k + 1 < |s| && s[k] == '/' && s[k + 1] == '*'
  }

  /** A comment closer, star then slash, starts at position `k`. */
  predicate CloserAt(s: string, k: int) {
    0 <= k && k + 1 < |s| && s[k] == '*' && s[k + 1] == '/'
  }

  /** The first closer at or after position `i`, the end of the shortest
      comment body (the lazy `.*?`). */
  function FindCloser(s: string, i: nat): (r: Option<nat>)
    ensures r.Some? ==> i <= r.value && CloserAt(s, r.value)
    ensures r.Some? ==> forall k :: i <= k < r.value ==> !CloserAt(s, k)
    ensures r.None? <==> forall k :: i <= k ==> !CloserAt(s, k)
    decreases |s| - i
  {
    if i + 1 >= |s| then None
    else if CloserAt(s, i) then Some(i)
    else FindCloser(s, i + 1)
  }

  /** Lines 49-51: every comment deleted, scanning from the left. An opener
      with no closer after it does not start a comment and is kept. */
  function StripComments(s: string): (r: string)
    ensures |r| <= |s|
    ensures forall x :: x in r ==> x in s
    decreases |s|
  {
    if |s| == 0 then []
    else if OpenerAt(s, 0) && FindCloser(s, 2).Some? then
      StripComments(s[FindCloser(s, 2).value + 2..])
    else
      [s[0]] + StripComments(s[1..])
  }

  /** Text in which no comment starts is copied as it is, and the rest of
      the text is processed on its own. */
  lemma {:induction false} StripPrefix(a: string, t: string)
    requires forall k :: 0 <= k < |a| ==> !OpenerAt(a + t, k)
    ensures StripComments(a + t) == a + StripComments(t)
    decreases |a|
  {
    if |a| > 0 {
      TailOfAppend(a, t);
      assert !OpenerAt(a + t, 0);
      assert StripComments(a + t) == [a[0]] + StripComments(a[1..] + t);
      assert StripComments(a[1..] + t) == a[1..] + StripComments(t) by {
        forall k | 0 <= k < |a[1..]|
          ensures !OpenerAt(a[1..] + t, k)
        {
          assert !OpenerAt(a + t, k + 1);
        }
        StripPrefix(a[1..], t);
      }
      ConsAppend(a, StripComments(t));
    } else {
      assert a + t == t;
    }
  }

  /** A text with no opener is unchanged. */
  lemma StripNoOpener(s: string)
    requires forall k :: !OpenerAt(s, k)
    ensures StripComments(s) == s
  {
    assert s + [] == s;
    StripPrefix(s, []);
  }

  /** A comment is deleted through the first closer after its opener,
      however many lines it spans, and only through that one. */
  lemma StripComment(b: string, c: string)
    requires forall k :: !CloserAt(b, k)
    ensures StripComments("/*" + b + "*/" + c) == StripComments(c)
  {
    var s := "/*" + b + "*/" + c;
    var j := |b| + 2;
    assert CloserAt(s, j);
    forall k | 2 <= k < j
      ensures !CloserAt(s, k)
    {
      if k + 1 < j {
        assert !CloserAt(b, k - 2);
      }
    }
    assert FindCloser(s, 2) == Some(j);
    assert s[j + 2..] == c;
  }

  /** A text with no closer is unchanged, openers included: none of them
      has a closer. */
  lemma {:induction false} StripNoCloser(s: string)
    requires forall k :: !CloserAt(s, k)
    ensures StripComments(s) == s
    decreases |s|
  {
    if |s| > 0 {
      forall k | 0 <= k
        ensures !CloserAt(s[1..], k)
      {
        assert !CloserAt(s, k + 1);
      }
      StripNoCloser(s[1..]);
      assert FindCloser(s, 2).None?;
    }
  }

  /** An unterminated comment is kept as it is. */
  lemma StripUnclosed(b: string)
    requires forall k :: !CloserAt(b, k)
    ensures StripComments("/*" + b) == "/*" + b
  {
    var s := "/*" + b;
    forall k | 2 <= k
      ensures !CloserAt(s, k)
    {
      assert !CloserAt(b, k - 2);
    }
    assert FindCloser(s, 2).None?;
    assert s[1..] == "*" + b;
    StripNoCloser(b);
    assert ("*" + b)[1..] == b;
  }

  // ---------------------------------------------------------------------
  // Trailing commas: `,\s*}` and `,\s*\]`
  // ---------------------------------------------------------------------

  /** The end of the run of whitespace starting at `i`. */
  function SpaceEnd(s: string, i: nat): (j: nat)
    requires i <= |s|
    ensures i <= j <= |s|
    ensures forall k :: i <= k < j ==> IsSpace(s[k])
    ensures j < |s| ==> !IsSpace(s[j])
    decreases |s| - i
  {
    if i < |s| && IsSpace(s[i]) then SpaceEnd(s, i + 1) else i
  }

  /** A comma, optional whitespace and then `close` start the text. */
  predicate TrailingCommaAt0(s: string, close: char) {
    |s| > 0 && s[0] == ',' && SpaceEnd(s, 1) < |s| && s[SpaceEnd(s, 1)] == close
  }

  /** Lines 56 and 58: every comma followed by nothing but whitespace and
      then `close` is deleted with that whitespace; `close` stays. */
  function DropTrailingCommas(s: string, close: char): (r: string)
    ensures |r| <= |s|
    ensures forall x :: x in r ==> x in s
    decreases |s|
  {
    if |s| == 0 then []
    else if TrailingCommaAt0(s, close) then
      [close] + DropTrailingCommas(s[SpaceEnd(s, 1) + 1..], close)
    else
      [s[0]] + DropTrailingCommas(s[1..], close)
  }

  /** Text without a comma is copied as it is, and the rest of the text is
      processed on its own. */
  lemma {:induction false} DropPrefix(a: string, t: string, close: char)
    requires ',' !in a
    ensures DropTrailingCommas(a + t, close) == a + DropTrailingCommas(t, close)
    decreases |a|
  {
    if |a| > 0 {
      assert (a + t)[0] == a[0];
      assert (a + t)[1..] == a[1..] + t;
      DropPrefix(a[1..], t, close);
      assert !TrailingCommaAt0(a + t, close);
      assert DropTrailingCommas(a + t, close) == [a[0]] + DropTrailingCommas(a[1..] + t, close);
      assert a == [a[0]] + a[1..];
      assert [a[0]] + (a[1..] + DropTrailingCommas(t, close)) == a + DropTrailingCommas(t, close);
    } else {
      assert a + t == t;
    }
  }

  /** A text without a comma is unchanged. */
  lemma DropNoComma(s: string, close: char)
    requires ',' !in s
    ensures DropTrailingCommas(s, close) == s
  {
    assert s + [] == s;
    DropPrefix(s, [], close);
  }

  /** A comma, any whitespace and `close` become `close` alone. */
  lemma DropComma(w: string, close: char, c: string)
    requires forall k :: 0 <= k < |w| ==> IsSpace(w[k])
    requires !IsSpace(close)
    ensures DropTrailingCommas([','] + w + [close] + c, close)
            == [close] + DropTrailingCommas(c, close)
  {
    var s := [','] + w + [close] + c;
    assert forall k :: 1 <= k < |w| + 1 ==> s[k] == w[k - 1];
    assert forall k :: 1 <= k < |w| + 1 ==> IsSpace(s[k]);
    assert s[|w| + 1] == close;
    var j := SpaceEnd(s, 1);
    assert j == |w| + 1;
    assert s[|w| + 2..] == c;
  }

  /** A comma that is not followed by whitespace and then `close` does not
      match, so it is kept, and the scan goes on after it. */
  lemma DropKeptComma(s: string, close: char)
    requires |s| > 0 && s[0] == ',' && !TrailingCommaAt0(s, close)
    ensures DropTrailingCommas(s, close) == [','] + DropTrailingCommas(s[1..], close)
  {
  }

  /** Text in which no comma is trailing, such as `[1,2]` or `{"a":1, "b":2}`,
      is unchanged: only the commas the pattern matches are deleted. */
  lemma {:induction false} DropNoTrailing(s: string, close: char)
    requires forall k :: 0 <= k < |s| && s[k] == ',' ==> !TrailingCommaAt0(s[k..], close)
    ensures DropTrailingCommas(s, close) == s
    decreases |s|
  {
    if |s| > 0 {
      if s[0] == ',' {
        assert s[0..] == s;
      }
      forall k | 0 <= k < |s[1..]| && s[1..][k] == ','
        ensures !TrailingCommaAt0(s[1..][k..], close)
      {
        assert s[1..][k..] == s[k + 1..];
      }
      DropNoTrailing(s[1..], close);
      assert s == [s[0]] + s[1..];
    }
  }

  /** The text with its commas and whitespace removed: what a comma
      deletion may not change. */
  function Solid(s: string): (r: string)
    ensures forall x :: x in r ==> x in s && x != ',' && !IsSpace(x)
    decreases |s|
  {
    if |s| == 0 then []
    else if s[0] == ',' || IsSpace(s[0]) then Solid(s[1..])
    else [s[0]] + Solid(s[1..])
  }

  lemma {:induction false} SolidAppend(a: string, b: string)
    ensures Solid(a + b) == Solid(a) + Solid(b)
    decreases |a|
  {
    if |a| > 0 {
      assert (a + b)[0] == a[0];
      assert (a + b)[1..] == a[1..] + b;
      SolidAppend(a[1..], b);
      if a[0] == ',' || IsSpace(a[0]) {
        assert Solid(a + b) == Solid(a[1..] + b);
      } else {
        assert Solid(a + b) == [a[0]] + Solid(a[1..] + b);
      }
    } else {
      assert a + b == b;
    }
  }

  lemma {:induction false} SolidSpaces(s: string, i: nat, j: nat)
    requires i <= j <= |s|
    requires forall k :: i <= k < j ==> IsSpace(s[k])
    ensures Solid(s[i..]) == Solid(s[j..])
    decreases j - i
  {
    if i < j {
      assert s[i..][1..] == s[i + 1..];
      SolidSpaces(s, i + 1, j);
    }
  }

  /** Dropping trailing commas removes commas and whitespace only: every
      other character survives, in order. */
  lemma {:induction false} DropKeepsSolid(s: string, close: char)
    requires !IsSpace(close) && close != ','
    ensures Solid(DropTrailingCommas(s, close)) == Solid(s)
    decreases |s|
  {
    if |s| > 0 {
      if TrailingCommaAt0(s, close) {
        var j := SpaceEnd(s, 1);
        DropKeepsSolid(s[j + 1..], close);
        SolidAppend([close], DropTrailingCommas(s[j + 1..], close));
        assert s[1..][j - 1..] == s[j..];
        SolidSpaces(s, 1, j);
        assert s[j..][1..] == s[j + 1..];
      } else {
        DropKeepsSolid(s[1..], close);
        SolidAppend([s[0]], DropTrailingCommas(s[1..], close));
      }
    }
  }

  // ---------------------------------------------------------------------
  // Key quoting: `(?<![\\"])([^\s"'{},\[\]:]+)\s*:` becomes `"\1":`
  // ---------------------------------------------------------------------

  /** A character a bare key may contain. */
  predicate KeyChar(c: char) {
    !IsSpace(c) && c != '"' && c != '\'' && c != '{' && c != '}'
    && c != ',' && c != '[' && c != ']' && c != ':'
  }

  /** The end of the run of key characters starting at `i`. */
  function RunEnd(s: string, i: nat): (e: nat)
    requires i <= |s|
    ensures i <= e <= |s|
    ensures forall k :: i <= k < e ==> KeyChar(s[k])
    ensures e < |s| ==> !KeyChar(s[e])
    decreases |s| - i
  {
    if i < |s| && KeyChar(s[i]) then RunEnd(s, i + 1) else i
  }

  /** The look-behind `(?<![\\"])`: the character before `i`, if any, is
      neither a backslash nor a double quote. */
  predicate MayStartKey(s: string, i: nat)
    requires i <= |s|
  {
    i == 0 || (s[i - 1] != '\\' && s[i - 1] != '"')
  }

  /** The pattern matches at `i` with the key `s[i..e]` and the colon at
      `m`: the look-behind holds, the key is non-empty, and only whitespace
      lies between key and colon. */
  predicate KeyAt(s: string, i: nat, e: nat, m: nat) {
    i < e <= m < |s|
    && MayStartKey(s, i)
    && (forall k :: i <= k < e ==> KeyChar(s[k]))
    && (forall k :: e <= k < m ==> IsSpace(s[k]))
    && s[m] == ':'
  }

  /** A match takes the whole key run and all the whitespace after it: a
      shorter run is followed by a key character, which is neither
      whitespace nor a colon, so backtracking finds nothing else. */
  lemma KeyAtIsLongest(s: string, i: nat, e: nat, m: nat)
    requires KeyAt(s, i, e, m)
    ensures e == RunEnd(s, i) && m == SpaceEnd(s, e)
  {
    assert !KeyChar(s[e]) by {
      if e < m {
        assert IsSpace(s[e]);
      }
    }
    assert e == RunEnd(s, i);
    assert !IsSpace(s[m]);
    assert m == SpaceEnd(s, e);
  }

  /** The match at `i`, if the pattern matches there; there is at most one. */
  function KeyMatch(s: string, i: nat): (r: Option<(nat, nat)>)
    requires i <= |s|
    ensures r.Some? ==> KeyAt(s, i, r.value.0, r.value.1)
    ensures forall e: nat, m: nat :: KeyAt(s, i, e, m) ==> r == Some((e, m))
  {
    var e := RunEnd(s, i);
    var m := SpaceEnd(s, e);
    forall e': nat, m': nat | KeyAt(s, i, e', m')
      ensures e' == e && m' == m
    {
      KeyAtIsLongest(s, i, e', m');
    }
    if MayStartKey(s, i) && i < e && m < |s| && s[m] == ':' then Some((e, m)) else None
  }

  /** No match at `i` because the character there cannot start a key. */
  lemma NoKeyAt(s: string, i: nat)
    requires i < |s| && !KeyChar(s[i])
    ensures KeyMatch(s, i) == None
  {
    assert RunEnd(s, i) == i;
  }

  /** No match anywhere from `j` up to a double quote at `close` when no
      colon lies in between: the key run and the whitespace after it stop
      at the quote at the latest, and what they stop at is not a colon. */
  lemma NoKeyBefore(s: string, j: nat, close: nat)
    requires j <= close < |s| && s[close] == '"'
    requires forall k :: j <= k < close ==> s[k] != ':'
    ensures KeyMatch(s, j) == None
    ensures QuoteKeysFrom(s, j) == [s[j]] + QuoteKeysFrom(s, j + 1)
  {
    var e := RunEnd(s, j);
    assert e <= close;
    var m := SpaceEnd(s, e);
    assert m <= close;
    assert s[m] != ':';
    CopyStep(s, j);
  }

  /** One step of the key-quoting scan at `i`: the quoted key and colon if
      the pattern matches there, else the character at `i`; and the position
      where the scan resumes. Only double quotes and colons are added. */
  function QuoteStep(s: string, i: nat): (r: (string, nat))
    requires i < |s|
    ensures i < r.1 <= |s|
    ensures forall x :: x in r.0 ==> x in s || x == '"' || x == ':'
  {
    match KeyMatch(s, i)
    case Some((e, m)) => (['"'] + s[i..e] + ['"', ':'], m + 1)
    case None => ([s[i]], i + 1)
  }

  /** The key-quoting pass over `s[i..]`; the look-behind consults the text
      before `i`, as the pattern does. The pass only adds double quotes and
      colons: every other character of its output comes from its input. */
  function QuoteKeysFrom(s: string, i: nat): (r: string)
    requires i <= |s|
    ensures forall x :: x in r ==> x in s || x == '"' || x == ':'
    decreases |s| - i
  {
    if i == |s| then []
    else
      var step := QuoteStep(s, i);
      step.0 + QuoteKeysFrom(s, step.1)
  }

  /** Where the pattern does not match, the character is copied. */
  lemma CopyStep(s: string, i: nat)
    requires i < |s| && KeyMatch(s, i) == None
    ensures QuoteKeysFrom(s, i) == [s[i]] + QuoteKeysFrom(s, i + 1)
  {
  }

  /** Lines 62-69: every bare key quoted. */
  function QuoteKeys(s: string): (r: string)
    ensures forall x :: x in r ==> x in s || x == '"' || x == ':'
  {
    QuoteKeysFrom(s, 0)
  }

  /** A bare key is quoted and the whitespace before its colon dropped. */
  lemma QuoteBareKey(s: string, i: nat, e: nat, m: nat)
    requires KeyAt(s, i, e, m)
    ensures QuoteKeysFrom(s, i) == ['"'] + s[i..e] + ['"', ':'] + QuoteKeysFrom(s, m + 1)
  {
    assert KeyMatch(s, i) == Some((e, m));
    assert QuoteStep(s, i) == (['"'] + s[i..e] + ['"', ':'], m + 1);
  }

  /** A stretch where the pattern matches nowhere is copied as it is. */
  lemma {:induction false} CopyRun(s: string, j: nat, k: nat)
    requires j <= k <= |s|
    requires forall p :: j <= p < k ==> KeyMatch(s, p) == None
    ensures QuoteKeysFrom(s, j) == s[j..k] + QuoteKeysFrom(s, k)
    decreases k - j
  {
    if j < k {
      CopyStep(s, j);
      CopyRun(s, j + 1, k);
      SliceCons(s, j, k);
      Assoc([s[j]], s[j + 1..k], QuoteKeysFrom(s, k));
    } else {
      assert s[j..k] == [];
    }
  }

  /** Text without a colon is copied as it is. */
  lemma QuoteNoColon(s: string, i: nat)
    requires i <= |s| && forall k :: i <= k < |s| ==> s[k] != ':'
    ensures QuoteKeysFrom(s, i) == s[i..]
  {
    forall p | i <= p < |s|
      ensures KeyMatch(s, p) == None
    {
      var m := SpaceEnd(s, RunEnd(s, p));
      assert m < |s| ==> s[m] != ':';
    }
    CopyRun(s, i, |s|);
    assert s[i..] + [] == s[i..];
  }

  /** Inside a string literal with no colon nothing matches: every run of
      key characters ends at a character that is neither whitespace nor a
      colon, at the latest at the closing quote. */
  lemma QuoteInsideLiteral(s: string, j: nat, close: nat)
    requires j <= close < |s| && s[close] == '"'
    requires forall k :: j <= k < close ==> s[k] != ':'
    ensures QuoteKeysFrom(s, j) == s[j..close] + QuoteKeysFrom(s, close)
  {
    forall p | j <= p < close
      ensures KeyMatch(s, p) == None
    {
      NoKeyBefore(s, p, close);
    }
    CopyRun(s, j, close);
  }

  /** A key already written as `"k":` is left as it is, provided `k` holds
      no colon. */
  lemma QuotedKeyKept(s: string, i: nat, n: nat)
    requires i + n + 2 < |s|
    requires s[i] == '"' && s[i + n + 1] == '"' && s[i + n + 2] == ':'
    requires forall k :: i < k <= i + n ==> s[k] != ':'
    ensures QuoteKeysFrom(s, i) == s[i..i + n + 3] + QuoteKeysFrom(s, i + n + 3)
  {
    var close, end := i + n + 1, i + n + 3;
    var rest := QuoteKeysFrom(s, end);
    var inner := QuoteKeysFrom(s, close);
    assert inner == s[close..end] + rest by {
      NoKeyAt(s, close);
      NoKeyAt(s, close + 1);
      CopyRun(s, close, end);
    }
    assert QuoteKeysFrom(s, i + 1) == s[i + 1..close] + inner by {
      QuoteInsideLiteral(s, i + 1, close);
    }
    assert QuoteKeysFrom(s, i) == s[i..i + 1] + QuoteKeysFrom(s, i + 1) by {
      NoKeyAt(s, i);
      CopyRun(s, i, i + 1);
    }
    SliceJoin(s, i + 1, close, end, rest);
    SliceJoin(s, i, i + 1, end, rest);
  }

  /** The key pattern does not know about string literals: in a string
      value such as `"ab:"` the run after the first character is taken for a
      key, so the value becomes `"a"b":"`. (The first character is spared
      only because the look-behind sees the opening quote before it.) */
  lemma ColonInsideString(a: char, b: char)
    requires KeyChar(a) && KeyChar(b) && a != '\\'
    ensures QuoteKeys(['"', a, b, ':', '"']) == ['"', a, '"', b, '"', ':', '"']
  {
    var s := ['"', a, b, ':', '"'];
    var tail := QuoteKeysFrom(s, 4);
    assert tail == ['"'] by {
      QuoteNoColon(s, 4);
      assert s[4..] == ['"'];
    }
    var mid := QuoteKeysFrom(s, 2);
    assert mid == ['"', b, '"', ':'] + tail by {
      KeyInLiteral(s, 2);
    }
    assert QuoteKeysFrom(s, 0) == ['"', a] + mid by {
      OpenLiteral(s, 0);
    }
  }

  /** The look-behind spares the character after a double quote: neither
      the quote nor that character starts a match, so the scan copies both. */
  lemma OpenLiteral(s: string, i: nat)
    requires i + 1 < |s| && s[i] == '"'
    ensures KeyMatch(s, i) == None && KeyMatch(s, i + 1) == None
    ensures QuoteKeysFrom(s, i) == [s[i], s[i + 1]] + QuoteKeysFrom(s, i + 2)
  {
    assert KeyMatch(s, i) == None by {
      NoKeyAt(s, i);
    }
    assert KeyMatch(s, i + 1) == None by {
      assert !MayStartKey(s, i + 1);
    }
    var rest := QuoteKeysFrom(s, i + 2);
    assert QuoteKeysFrom(s, i) == s[i..i + 2] + rest by {
      CopyRun(s, i, i + 2);
    }
    SlicePair(s, i);
  }

  /** A key character that follows neither a backslash nor a double quote
      and is followed by a colon is quoted as a key, whether or not it lies
      inside a string literal. */
  lemma KeyInLiteral(s: string, i: nat)
    requires 0 < i && i + 1 < |s|
    requires s[i - 1] != '\\' && s[i - 1] != '"' && KeyChar(s[i]) && s[i + 1] == ':'
    ensures QuoteKeysFrom(s, i) == ['"', s[i], '"', ':'] + QuoteKeysFrom(s, i + 2)
  {
    var rest := QuoteKeysFrom(s, i + 2);
    assert QuoteKeysFrom(s, i) == ['"'] + [s[i]] + ['"', ':'] + rest by {
      assert KeyAt(s, i, i + 1, i + 1);
      QuoteBareKey(s, i, i + 1, i + 1);
      assert s[i..i + 1] == [s[i]];
    }
    QuotedOne(s[i], rest);
  }

  // ---------------------------------------------------------------------
  // Key quoting that leaves string literals alone
  // ---------------------------------------------------------------------

  /** The end of a string literal whose body starts at `k`: the position
      after the first double quote that no backslash escapes, or the end of
      the text when the literal is not closed. */
  function LiteralEnd(s: string, k: nat): (j: nat)
    requires k <= |s|
    ensures k <= j <= |s|
    ensures k < |s| ==> k < j
    decreases |s| - k
  {
    if k == |s| then |s|
    else if s[k] == '"' then k + 1
    else if s[k] == '\\' then (if k + 1 < |s| then LiteralEnd(s, k + 2) else |s|)
    else LiteralEnd(s, k + 1)
  }

  /** A body without quotes or backslashes ends at the first double quote. */
  lemma {:induction false} LiteralEndPlain(s: string, k: nat, c: nat)
    requires k <= c < |s| && s[c] == '"'
    requires forall p :: k <= p < c ==> s[p] != '"' && s[p] != '\\'
    ensures LiteralEnd(s, k) == c + 1
    decreases c - k
  {
    if k < c {
      LiteralEndPlain(s, k + 1, c);
    }
  }

  /** The key-quoting scan with the treatment the pattern's look-behind was
      meant to give: a double quote opens a string literal, which is copied
      through its closing quote untouched; elsewhere the scan is the same as
      `QuoteKeysFrom`. */
  function QuoteKeysOutsideFrom(s: string, i: nat): (r: string)
    requires i <= |s|
    ensures forall x :: x in r ==> x in s || x == '"' || x == ':'
    decreases |s| - i
  {
    if i == |s| then []
    else if s[i] == '"' then
      var j := LiteralEnd(s, i + 1);
      assert forall x :: x in s[i..j] ==> x in s;
      s[i..j] + QuoteKeysOutsideFrom(s, j)
    else
      var step := QuoteStep(s, i);
      step.0 + QuoteKeysOutsideFrom(s, step.1)
  }

  /** Lines 62-69 as their comment describes them: every bare key quoted,
      string literals left as they are. */
  function QuoteKeysOutside(s: string): (r: string)
    ensures forall x :: x in r ==> x in s || x == '"' || x == ':'
  {
    QuoteKeysOutsideFrom(s, 0)
  }

  /** A string literal whose body holds no quote or backslash is copied as
      it is, whatever it holds: colons, key characters, whitespace. */
  lemma LiteralKept(s: string, i: nat, c: nat)
    requires i < c < |s| && s[i] == '"' && s[c] == '"'
    requires forall p :: i < p < c ==> s[p] != '"' && s[p] != '\\'
    ensures QuoteKeysOutsideFrom(s, i) == s[i..c + 1] + QuoteKeysOutsideFrom(s, c + 1)
  {
    LiteralEndPlain(s, i + 1, c);
  }

  /** Outside literals a bare key is still quoted and the whitespace before
      its colon dropped. */
  lemma QuoteBareKeyOutside(s: string, i: nat, e: nat, m: nat)
    requires KeyAt(s, i, e, m)
    ensures QuoteKeysOutsideFrom(s, i)
            == ['"'] + s[i..e] + ['"', ':'] + QuoteKeysOutsideFrom(s, m + 1)
  {
    assert KeyMatch(s, i) == Some((e, m));
    assert QuoteStep(s, i) == (['"'] + s[i..e] + ['"', ':'], m + 1);
  }

  /** On text without double quotes the two scans agree: the correction
      changes nothing but the handling of string literals. */
  lemma {:induction false} OutsideAgrees(s: string, i: nat)
    requires i <= |s| && forall k :: i <= k < |s| ==> s[k] != '"'
    ensures QuoteKeysOutsideFrom(s, i) == QuoteKeysFrom(s, i)
    decreases |s| - i
  {
    if i < |s| {
      OutsideAgrees(s, QuoteStep(s, i).1);
    }
  }

  /** Where no colon follows, the pattern cannot match. */
  lemma NoColonNoMatch(s: string, i: nat)
    requires i <= |s| && forall k :: i <= k < |s| ==> s[k] != ':'
    ensures KeyMatch(s, i) == None
  {
    var m := SpaceEnd(s, RunEnd(s, i));
    assert m < |s| ==> s[m] != ':';
  }

  /** Outside a literal, where the pattern does not match, the corrected
      scan copies the character. */
  lemma OutsideCopyStep(s: string, i: nat)
    requires i < |s| && s[i] != '"' && KeyMatch(s, i) == None
    ensures QuoteKeysOutsideFrom(s, i) == [s[i]] + QuoteKeysOutsideFrom(s, i + 1)
  {
    assert QuoteStep(s, i) == ([s[i]], i + 1);
  }

  /** Text without a colon is copied as it is, literals included. */
  lemma {:induction false} OutsideNoColon(s: string, i: nat)
    requires i <= |s| && forall k :: i <= k < |s| ==> s[k] != ':'
    ensures QuoteKeysOutsideFrom(s, i) == s[i..]
    decreases |s| - i, 1
  {
    if i < |s| {
      if s[i] == '"' {
        LiteralNoColon(s, i);
      } else {
        CharNoColon(s, i);
      }
    }
  }

  /** The literal case of `OutsideNoColon`. */
  lemma {:induction false} LiteralNoColon(s: string, i: nat)
    requires i < |s| && s[i] == '"' && forall k :: i <= k < |s| ==> s[k] != ':'
    ensures QuoteKeysOutsideFrom(s, i) == s[i..]
    decreases |s| - i, 0
  {
    var j := LiteralEnd(s, i + 1);
    assert QuoteKeysOutsideFrom(s, i) == s[i..j] + QuoteKeysOutsideFrom(s, j);
    OutsideNoColon(s, j);
    SliceSplit(s, i, j);
  }

  /** The case of `OutsideNoColon` outside a literal. */
  lemma {:induction false} CharNoColon(s: string, i: nat)
    requires i < |s| && s[i] != '"' && forall k :: i <= k < |s| ==> s[k] != ':'
    ensures QuoteKeysOutsideFrom(s, i) == s[i..]
    decreases |s| - i, 0
  {
    var rest := QuoteKeysOutsideFrom(s, i + 1);
    assert QuoteKeysOutsideFrom(s, i) == [s[i]] + rest by {
      NoColonNoMatch(s, i);
      OutsideCopyStep(s, i);
    }
    assert rest == s[i + 1..] by {
      OutsideNoColon(s, i + 1);
    }
    SliceCons(s, i, |s|);
  }

  /** The value that `QuoteKeys` splits comes through the corrected scan
      unchanged. */
  lemma ColonInsideStringKept(a: char, b: char)
    requires KeyChar(a) && KeyChar(b) && a != '\\' && b != '\\'
    ensures QuoteKeysOutside(['"', a, b, ':', '"']) == ['"', a, b, ':', '"']
  {
    var s := ['"', a, b, ':', '"'];
    LiteralKept(s, 0, 4);
    assert s[0..5] == s;
  }

  // ---------------------------------------------------------------------
  // The pipeline
  // ---------------------------------------------------------------------

  /** Lines 47-59: comments, then trailing commas before `}`, then before `]`. */
  function Preprocess(s: string): (r: string)
    ensures |r| <= |s|
    ensures forall x :: x in r ==> x in s
  {
    DropTrailingCommas(DropTrailingCommas(StripComments(s), '}'), ']')
  }

  /** The corrected text: tabs, then quotes, then comments and commas, then
      keys (lines 41-44 and 72-74), with keys quoted outside string literals
      only, as the key-quoting step's comment says. */
  function Correct(raw: string): (r: string)
    ensures '\t' !in r && '\'' !in r
  {
    var t := Preprocess(QuotesToDouble(TabsToSpaces(raw)));
    assert '\t' !in t && '\'' !in t by {
      var t2 := QuotesToDouble(TabsToSpaces(raw));
      assert forall i :: 0 <= i < |t2| ==> t2[i] != '\t';
    }
    QuoteKeysOutside(t)
  }

  /** `Correct` as the code computes it, quoting keys inside string literals
      too. */
  function CorrectAsWritten(raw: string): (r: string)
    ensures '\t' !in r && '\'' !in r
  {
    var t := Preprocess(QuotesToDouble(TabsToSpaces(raw)));
    assert '\t' !in t && '\'' !in t by {
      var t2 := QuotesToDouble(TabsToSpaces(raw));
      assert forall i :: 0 <= i < |t2| ==> t2[i] != '\t';
    }
    QuoteKeys(t)
  }

  /** The two pipelines differ only in key quoting, and agree on text that
      holds no double quote after its single quotes are replaced. */
  lemma CorrectAgrees(raw: string)
    requires '"' !in raw && '\'' !in raw
    ensures Correct(raw) == CorrectAsWritten(raw)
  {
    var t1 := TabsToSpaces(raw);
    assert multiset(t1)['"'] == multiset(raw)['"'] == 0;
    assert '\'' !in t1 by {
      assert multiset(t1)['\''] == multiset(raw)['\''] == 0;
    }
    var t2 := QuotesToDouble(t1);
    assert t2 == t1;
    var t := Preprocess(t2);
    assert '"' !in t;
    OutsideAgrees(t, 0);
  }

  /** The outcome of `correct_json`: the rewritten text, and whether the JSON
      parser accepted it. */
  datatype Checked = Checked(text: string, parsed: bool)

  /** `correct_json` as written, with the JSON parser as a parameter. Both
      the success and the parse-error path return the rewritten text, so the
      text never depends on the parser. It holds no tab and no single quote,
      and on input without quotes it is the intended `Correct` text. */
  function CorrectJson(raw: string, parses: string -> bool): (r: Checked)
    ensures r.text == CorrectAsWritten(raw)
    ensures r.parsed <==> parses(CorrectAsWritten(raw))
    ensures '\t' !in r.text && '\'' !in r.text
    ensures '"' !in raw && '\'' !in raw ==> r.text == Correct(raw)
  {
    var text := CorrectAsWritten(raw);
    assert '"' !in raw && '\'' !in raw ==> text == Correct(raw) by {
      if '"' !in raw && '\'' !in raw {
        CorrectAgrees(raw);
      }
    }
    Checked(text, parses(text))
  }

  /** Text that needs no correction (no tab, no single quote, no comma, no
      colon, no comment opener) comes back unchanged, from the pipeline as
      written and from the intended one alike. */
  lemma CorrectPlainText(raw: string)
    requires '\t' !in raw && '\'' !in raw && ',' !in raw && ':' !in raw
    requires forall k :: !OpenerAt(raw, k)
    ensures CorrectAsWritten(raw) == raw
    ensures Correct(raw) == raw
  {
    StripNoOpener(raw);
    DropNoComma(raw, '}');
    DropNoComma(raw, ']');
    assert Preprocess(QuotesToDouble(TabsToSpaces(raw))) == raw;
    assert CorrectAsWritten(raw) == raw by {
      QuoteNoColon(raw, 0);
    }
    assert Correct(raw) == raw by {
      OutsideNoColon(raw, 0);
    }
  }
}
