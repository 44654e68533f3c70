/** The Python string primitives the pipeline relies on: `str.isspace`,
    `str.lower`, `str.strip`, `str.split()` and `" ".join`. */
module Text {

  /** Python's whitespace (`str.isspace`, `\s` in `re`, the separators of
      `str.split()` and the characters `str.strip()` removes). */
  predicate IsSpace(c: char)
  {
    || c == ' ' || c == '\t' || c == '\n' || c == '\r'
    || c == '\U{000B}' || c == '\U{000C}'
    || ('\U{001C}' <= c <= '\U{001F}')
    || c == '\U{0085}' || c == '\U{00A0}' || c == '\U{1680}'
    || ('\U{2000}' <= c <= '\U{200A}')
    || c == '\U{2028}' || c == '\U{2029}' || c == '\U{202F}' || c == '\U{205F}' || c == '\U{3000}'
  }

  predicate NoSpace(s: string)
  {
    forall k :: 0 <= k < |s| ==> !IsSpace(s[k])
  }

  /** Upper-case letters of the Basic Latin and Latin-1 blocks. */
  predicate IsUpper(c: char)
  {
    ('A' <= c <= 'Z') || ('\U{00C0}' <= c <= '\U{00DE}' && c != '\U{00D7}')
  }

  function LowerChar(c: char): (r: char)
    ensures !IsUpper(r)
    ensures !IsUpper(c) ==> r == c
    ensures IsSpace(r) <==> IsSpace(c)
  {
    if IsUpper(c) then (c as int + 32) as char else c
  }

  /** `str.lower()`: the result has no upper-case letter left, keeps every
      other character in place, and leaves a lower-case string as it is. */
  function Lower(s: string): (r: string)
    ensures |r| == |s|
    ensures forall k :: 0 <= k < |r| ==> r[k] == LowerChar(s[k])
    ensures IsLower(r)
    ensures IsLower(s) ==> r == s
  {
    seq(|s|, k requires 0 <= k < |s| => LowerChar(s[k]))
  }

  /** No upper-case letter. */
  predicate IsLower(s: string)
  {
    forall k :: 0 <= k < |s| ==> !IsUpper(s[k])
  }

  function TrimStart(s: string): (r: string)
    ensures |r| <= |s| && r == s[|s| - |r|..]
    ensures r == [] || !IsSpace(r[0])
    ensures forall k :: 0 <= k < |s| - |r| ==> IsSpace(s[k])
  {
    if s != [] && IsSpace(s[0]) then TrimStart(s[1..]) else s
  }

  function TrimEnd(s: string): (r: string)
    ensures |r| <= |s| && r == s[..|r|]
    ensures r == [] || !IsSpace(r[|r| - 1])
    ensures forall k :: |r| <= k < |s| ==> IsSpace(s[k])
  {
    if s != [] && IsSpace(s[|s| - 1]) then TrimEnd(s[..|s| - 1]) else s
  }

  /** Neither starts nor ends with whitespace. */
  predicate IsStripped(s: string)
  {
    s == [] || (!IsSpace(s[0]) && !IsSpace(s[|s| - 1]))
  }

  /** `str.strip()`. */
  function Strip(s: string): (r: string)
    ensures IsStripped(r)
    ensures |r| <= |s|
  {
    TrimEnd(TrimStart(s))
  }

  /** `Strip(s)` is the slice of `s` left after removing its leading and
      trailing whitespace. */
  lemma StripIsSlice(s: string)
    ensures exists i, j :: 0 <= i <= j <= |s| && Strip(s) == s[i..j]
                           && (forall k :: 0 <= k < i ==> IsSpace(s[k]))
                           && (forall k :: j <= k < |s| ==> IsSpace(s[k]))
  {
    var t := TrimStart(s);
    var r := TrimEnd(t);
    var i := |s| - |t|;
    var j := i + |r|;
    assert t == s[i..];
    assert r == s[i..j];
    assert forall k :: 0 <= k < i ==> IsSpace(s[k]);
    forall k | j <= k < |s| ensures IsSpace(s[k]) {
      assert s[k] == t[k - i];
    }
  }

  /** A stripped string is a fixed point of `Strip`. */
  lemma StripFixedPoint(s: string)
    requires IsStripped(s)
    ensures Strip(s) == s
  {
  }

  lemma StripIdempotent(s: string)
    ensures Strip(Strip(s)) == Strip(s)
  {
    StripFixedPoint(Strip(s));
  }

  /** `str.split()` with no separator, reading `s` left to right while `cur`
      holds the characters of the token being built: runs of whitespace
      separate tokens and no token is empty. */
  function SplitFrom(s: string, cur: string): seq<string>
    decreases |s|
  {
    if s == [] then (if cur == [] then [] else [cur])
    else if IsSpace(s[0]) then (if cur == [] then SplitFrom(s[1..], []) else [cur] + SplitFrom(s[1..], []))
    else SplitFrom(s[1..], cur + [s[0]])
  }

  function Split(s: string): seq<string>
  {
    SplitFrom(s, [])
  }

  /** `" ".join(ts)`. */
  function Join(ts: seq<string>): string
  {
    if ts == [] then ""
    else if |ts| == 1 then ts[0]
    else ts[0] + " " + Join(ts[1..])
  }

  /** Tokens that split and join can exchange losslessly. */
  predicate WellFormedTokens(ts: seq<string>)
  {
    forall k :: 0 <= k < |ts| ==> ts[k] != [] && NoSpace(ts[k])
  }

  /** Every token produced while splitting is non-empty, free of whitespace and
      made only of characters of `cur` or `s`. */
  lemma {:induction false} SplitFromTokens(s: string, cur: string)
    requires NoSpace(cur)
    ensures WellFormedTokens(SplitFrom(s, cur))
    ensures forall k, m :: 0 <= k < |SplitFrom(s, cur)| && 0 <= m < |SplitFrom(s, cur)[k]|
              ==> SplitFrom(s, cur)[k][m] in cur || SplitFrom(s, cur)[k][m] in s
    decreases |s|
  {
    if s == [] {
    } else if IsSpace(s[0]) {
      SplitFromTokens(s[1..], []);
    } else {
      SplitFromTokens(s[1..], cur + [s[0]]);
      var r := SplitFrom(s[1..], cur + [s[0]]);
      forall k, m | 0 <= k < |r| && 0 <= m < |r[k]|
        ensures r[k][m] in cur || r[k][m] in s
      {
        if r[k][m] in cur + [s[0]] {
          assert r[k][m] in cur || r[k][m] == s[0];
        } else {
          assert r[k][m] in s[1..];
        }
      }
    }
  }

  /** Tokens of `str.split()` are non-empty, contain no whitespace, and every
      character of a token is a character of the input. */
  lemma SplitTokens(s: string)
    ensures WellFormedTokens(Split(s))
    ensures forall k, m :: 0 <= k < |Split(s)| && 0 <= m < |Split(s)[k]| ==> Split(s)[k][m] in s
  {
    SplitFromTokens(s, []);
  }

  /** A whitespace-only string (in particular the empty one) splits into nothing. */
  lemma {:induction false} SplitAllSpace(s: string, cur: string)
    requires forall k :: 0 <= k < |s| ==> IsSpace(s[k])
    ensures SplitFrom(s, cur) == if cur == [] then [] else [cur]
    decreases |s|
  {
    if s != [] {
      SplitAllSpace(s[1..], []);
    }
  }

  /** Splitting across a whitespace-free word only extends the current token. */
  lemma {:induction false} SplitFromWord(w: string, rest: string, cur: string)
    requires NoSpace(w)
    ensures SplitFrom(w + rest, cur) == SplitFrom(rest, cur + w)
    decreases |w|
  {
    if w == [] {
      assert w + rest == rest;
      assert cur + w == cur;
    } else {
      assert (w + rest)[0] == w[0];
      assert (w + rest)[1..] == w[1..] + rest;
      SplitFromWord(w[1..], rest, cur + [w[0]]);
      assert cur + [w[0]] + w[1..] == cur + w;
    }
  }

  lemma {:induction false} JoinNonEmpty(ts: seq<string>)
    requires ts != [] && WellFormedTokens(ts)
    ensures Join(ts) != []
    ensures Join(ts)[0] == ts[0][0]
    ensures Join(ts)[|Join(ts)| - 1] == ts[|ts| - 1][|ts[|ts| - 1]| - 1]
  {
    if |ts| > 1 {
      JoinNonEmpty(ts[1..]);
    }
  }

  lemma {:induction false} SplitFromJoin(ts: seq<string>, cur: string)
    requires ts != [] && WellFormedTokens(ts)
    ensures SplitFrom(Join(ts), cur) == [cur + ts[0]] + ts[1..]
  {
    if |ts| == 1 {
      SplitFromWord(ts[0], [], cur);
      assert ts[0] + [] == ts[0];
    } else {
      var rest := " " + Join(ts[1..]);
      assert Join(ts) == ts[0] + rest;
      SplitFromWord(ts[0], rest, cur);
      assert cur + ts[0] != [];
      assert rest[1..] == Join(ts[1..]);
      SplitFromJoin(ts[1..], []);
      assert [] + ts[1..][0] == ts[1];
      assert [ts[1]] + ts[2..] == ts[1..];
    }
  }

  /** Round trip: splitting a join of well-formed tokens gives the tokens back. */
  lemma SplitJoin(ts: seq<string>)
    requires WellFormedTokens(ts)
    ensures Split(Join(ts)) == ts
  {
    if ts != [] {
      SplitFromJoin(ts, []);
      assert [] + ts[0] == ts[0];
    }
  }

  /** No leading or trailing whitespace, and whitespace occurs only as a single
      ' ' between two non-whitespace characters. */
  predicate SingleSpaced(s: string)
  {
    && (s == [] || (!IsSpace(s[0]) && !IsSpace(s[|s| - 1])))
    && forall k :: 0 <= k < |s| && IsSpace(s[k]) ==>
         s[k] == ' ' && 0 < k < |s| - 1 && !IsSpace(s[k - 1]) && !IsSpace(s[k + 1])
  }

  /** Joining well-formed tokens yields a single-spaced string. */
  lemma {:induction false} JoinSingleSpaced(ts: seq<string>)
    requires WellFormedTokens(ts)
    ensures SingleSpaced(Join(ts))
  {
    if |ts| > 1 {
      var j := Join(ts[1..]);
      JoinSingleSpaced(ts[1..]);
      JoinNonEmpty(ts[1..]);
      JoinNonEmpty(ts);
      var s := Join(ts);
      var n := |ts[0]|;
      assert s == ts[0] + " " + j;
      forall k | 0 <= k < |s| && IsSpace(s[k])
        ensures s[k] == ' ' && 0 < k < |s| - 1 && !IsSpace(s[k - 1]) && !IsSpace(s[k + 1])
      {
        if k < n {
          assert false;
        } else if k == n {
          assert s[k - 1] == ts[0][n - 1];
          assert s[k + 1] == j[0];
        } else {
          assert s[k] == j[k - n - 1];
          if k - n - 1 == 0 {
            assert false;
          } else {
            assert s[k - 1] == j[k - n - 2];
            assert s[k + 1] == j[k - n];
          }
        }
      }
    }
  }
}
