/** The JavaScript string operations the gallery relies on:
    String.prototype.trim, toLowerCase (ASCII letters), includes and split. */
module Strings {

  /** ECMAScript's WhiteSpace and LineTerminator code points: the characters
      `trim` removes (tab to carriage return, space, no-break space, the
      Unicode space separators, the line and paragraph separators and the
      byte order mark). */
  predicate IsSpace(c: char) {
    if c <= ' ' then c == ' ' || '\t' <= c <= '\r'
    else if c < '\U{2000}' then c == '\U{00A0}' || c == '\U{1680}'
    else (c <= '\U{200A}' || c == '\U{2028}' || c == '\U{2029}' || c == '\U{202F}'
      || c == '\U{205F}' || c == '\U{3000}' || c == '\U{FEFF}')
  }

  predicate IsUpper(c: char) {
    'A' <= c <= 'Z'
  }

  function LowerChar(c: char): char {
    if IsUpper(c) then (c as int + 32) as char else c
  }

  /** `s.toLowerCase()` restricted to the ASCII letters. */
  function Lower(s: string): (r: string)
    ensures |r| == |s|
    ensures forall k :: 0 <= k < |r| ==> !IsUpper(r[k])
    ensures forall k :: 0 <= k < |s| ==>
      (!IsUpper(s[k]) ==> r[k] == s[k])
      && (IsUpper(s[k]) ==> 'a' <= r[k] <= 'z' && r[k] as int == s[k] as int + 32)
  {
    seq(|s|, k requires 0 <= k < |s| => LowerChar(s[k]))
  }

  lemma LowerIdempotent(s: string)
    ensures Lower(Lower(s)) == Lower(s)
  {
  }

  /** The number of white-space characters `s` starts with. */
  function Lead(s: string): (n: nat)
    ensures n <= |s|
    ensures forall k :: 0 <= k < n ==> IsSpace(s[k])
    ensures n < |s| ==> !IsSpace(s[n])
    decreases |s|
  {
    if |s| > 0 && IsSpace(s[0]) then 1 + Lead(s[1..]) else 0
  }

  /** The number of white-space characters `s` ends with. */
  function Trail(s: string): (n: nat)
    ensures n <= |s|
    ensures forall k :: |s| - n <= k < |s| ==> IsSpace(s[k])
    ensures n < |s| ==> !IsSpace(s[|s| - n - 1])
    decreases |s|
  {
    if |s| > 0 && IsSpace(s[|s| - 1]) then 1 + Trail(s[..|s| - 1]) else 0
  }

  /** `s.trim()`: the leading white space is cut off, then the trailing. */
  function Trim(s: string): string {
    var t := s[Lead(s)..];
    t[..|t| - Trail(t)]
  }

  /** Trimming keeps the infix of `s` that starts at its first and ends at
      its last non-space character; everything cut off is white space. */
  lemma TrimSpec(s: string)
    ensures var r := Trim(s); var a := Lead(s);
      && a + |r| <= |s| && r == s[a..a + |r|]
      && (forall k :: 0 <= k < a ==> IsSpace(s[k]))
      && (forall k :: a + |r| <= k < |s| ==> IsSpace(s[k]))
      && (r == [] || (!IsSpace(r[0]) && !IsSpace(r[|r| - 1])))
  {
    TrimInfix(s);
    TrimTail(s);
    TrimEnds(s);
  }

  lemma TrimInfix(s: string)
    ensures Lead(s) + |Trim(s)| <= |s|
    ensures Trim(s) == s[Lead(s)..Lead(s) + |Trim(s)|]
  {
    var a := Lead(s);
    var t := s[a..];
    var b := |t| - Trail(t);
    assert Trim(s) == t[..b];
    assert t[..b] == s[a..a + b];
  }

  lemma TrimTail(s: string)
    ensures forall k :: Lead(s) + |Trim(s)| <= k < |s| ==> IsSpace(s[k])
  {
    var a := Lead(s);
    var t := s[a..];
    var b := |t| - Trail(t);
    assert |Trim(s)| == b;
    forall k | a + b <= k < |s|
      ensures IsSpace(s[k])
    {
      assert s[k] == t[k - a];
    }
  }

  lemma TrimEnds(s: string)
    ensures Trim(s) == [] || (!IsSpace(Trim(s)[0]) && !IsSpace(Trim(s)[|Trim(s)| - 1]))
  {
    var t := s[Lead(s)..];
    var b := |t| - Trail(t);
    assert Trim(s) == t[..b];
    if b > 0 {
      assert Trim(s)[0] == t[0];
      assert Trim(s)[b - 1] == t[b - 1];
    }
  }

  /** Lower-casing maps white space to itself and nothing else to white space. */
  lemma LowerCharSpace(c: char)
    ensures IsSpace(LowerChar(c)) <==> IsSpace(c)
    ensures IsSpace(c) ==> LowerChar(c) == c
  {
  }

  lemma {:induction false} LeadLower(s: string)
    ensures Lead(Lower(s)) == Lead(s)
    decreases |s|
  {
    if |s| > 0 {
      LowerCharSpace(s[0]);
      assert Lower(s)[1..] == Lower(s[1..]);
      LeadLower(s[1..]);
    }
  }

  lemma {:induction false} TrailLower(s: string)
    ensures Trail(Lower(s)) == Trail(s)
    decreases |s|
  {
    if |s| > 0 {
      LowerCharSpace(s[|s| - 1]);
      assert Lower(s)[..|s| - 1] == Lower(s[..|s| - 1]);
      TrailLower(s[..|s| - 1]);
    }
  }

  /** Lower-casing touches no white space, so it commutes with trimming. */
  lemma TrimLower(s: string)
    ensures Trim(Lower(s)) == Lower(Trim(s))
  {
    var a := Lead(s);
    var t := s[a..];
    var m := |t| - Trail(t);
    calc {
      Trim(Lower(s));
   == { LeadLower(s); }
      Lower(s)[a..][..|Lower(s)[a..]| - Trail(Lower(s)[a..])];
   == { LowerSuffix(s, a); TrailLower(t); }
      Lower(t)[..m];
   == { LowerPrefix(t, m); }
      Lower(t[..m]);
   == { assert Trim(s) == t[..m]; }
      Lower(Trim(s));
    }
  }

  lemma LowerSuffix(s: string, i: nat)
    requires i <= |s|
    ensures Lower(s)[i..] == Lower(s[i..])
  {
  }

  lemma LowerPrefix(s: string, j: nat)
    requires j <= |s|
    ensures Lower(s)[..j] == Lower(s[..j])
  {
  }

  /** `n` occurs in `h` starting at position `i`. */
  predicate OccursAt(h: string, n: string, i: nat) {
    i + |n| <= |h| && h[i..i + |n|] == n
  }

  /** `h.includes(n)`. */
  function Contains(h: string, n: string): bool
    decreases |h|
  {
    if |n| > |h| then false
    else h[..|n|] == n || Contains(h[1..], n)
  }

  /** `includes` is substring search: it holds exactly when `n` occurs somewhere in `h`. */
  lemma {:induction false} ContainsIff(h: string, n: string)
    ensures Contains(h, n) <==> exists i: nat :: OccursAt(h, n, i)
    decreases |h|
  {
    if |n| > |h| {
      forall i: nat ensures !OccursAt(h, n, i) { }
    } else if h[..|n|] == n {
      assert OccursAt(h, n, 0);
    } else {
      ContainsIff(h[1..], n);
      if Contains(h[1..], n) {
        var i: nat :| OccursAt(h[1..], n, i);
        assert h[i + 1..i + 1 + |n|] == h[1..][i..i + |n|];
        assert OccursAt(h, n, i + 1);
      } else {
        forall i: nat | OccursAt(h, n, i) ensures false {
          if i > 0 {
            assert h[1..][i - 1..i - 1 + |n|] == h[i..i + |n|];
            assert OccursAt(h[1..], n, i - 1);
          }
        }
      }
    }
  }

  /** `s.split(c)` for a one-character separator: the pieces between occurrences
      of `c`, empty pieces included, so that there is always at least one. */
  function Split(s: string, c: char): (r: seq<string>)
    ensures |r| >= 1
    ensures forall k :: 0 <= k < |r| ==> c !in r[k]
    decreases |s|
  {
    if |s| == 0 then [""]
    else
      var rest := Split(s[1..], c);
      if s[0] == c then [""] + rest
      else [[s[0]] + rest[0]] + rest[1..]
  }

  /** `pieces.join(c)`. */
  function Join(pieces: seq<string>, c: char): string
    requires |pieces| >= 1
    decreases |pieces|
  {
    if |pieces| == 1 then pieces[0] else pieces[0] + [c] + Join(pieces[1..], c)
  }

  /** Splitting loses nothing: joining the pieces with the separator gives `s` back. */
  lemma {:induction false} JoinSplit(s: string, c: char)
    ensures Join(Split(s, c), c) == s
    decreases |s|
  {
    if |s| > 0 {
      var rest := Split(s[1..], c);
      JoinSplit(s[1..], c);
      if s[0] == c {
        assert Split(s, c)[1..] == rest;
      } else {
        var r := Split(s, c);
        assert r[0] == [s[0]] + rest[0];
        if |rest| == 1 {
          assert s == [s[0]] + s[1..];
        } else {
          assert r[1..] == rest[1..];
          assert Join(rest, c) == rest[0] + [c] + Join(rest[1..], c);
          assert s == [s[0]] + s[1..];
        }
      }
    }
  }

  /** There is a single piece, `s` itself, exactly when the separator does not occur. */
  lemma {:induction false} SplitSingle(s: string, c: char)
    ensures c !in s <==> |Split(s, c)| == 1
    ensures c !in s ==> Split(s, c) == [s]
    decreases |s|
  {
    if |s| > 0 {
      var rest := Split(s[1..], c);
      SplitSingle(s[1..], c);
      assert s == [s[0]] + s[1..];
      if s[0] != c && c !in s[1..] {
        assert rest == [s[1..]];
        assert Split(s, c) == [[s[0]] + s[1..]];
      }
    }
  }

  /** `s.split(c).pop()`. */
  function LastPiece(s: string, c: char): string {
    var r := Split(s, c); r[|r| - 1]
  }

  /** The last piece of `s` is `s` itself when its first character is not
      the separator and the separator does not occur later either; otherwise
      it is the last piece of the rest of `s`. */
  lemma LastPieceStep(s: string, c: char)
    requires |s| > 0
    ensures LastPiece(s, c) == if s[0] != c && c !in s[1..] then s else LastPiece(s[1..], c)
  {
    var rest := Split(s[1..], c);
    var r := Split(s, c);
    SplitSingle(s[1..], c);
    if s[0] == c {
      assert r[|r| - 1] == rest[|rest| - 1];
    } else if |rest| == 1 {
      assert s == [s[0]] + s[1..];
      assert r == [[s[0]] + rest[0]];
    } else {
      assert r[|r| - 1] == rest[|rest| - 1];
    }
  }

  /** The last piece is a suffix of `s`; it is all of `s` when `c` does not
      occur, and otherwise the character before it is `c`. */
  lemma {:induction false} SplitLast(s: string, c: char)
    ensures var p := LastPiece(s, c);
      |p| <= |s| && s[|s| - |p|..] == p
      && (c !in s ==> p == s)
      && (c in s ==> |p| < |s| && s[|s| - |p| - 1] == c)
    decreases |s|
  {
    if |s| > 0 {
      LastPieceStep(s, c);
      assert c in s <==> s[0] == c || c in s[1..] by {
        assert s == [s[0]] + s[1..];
      }
      if s[0] != c && c !in s[1..] {
      } else {
        var p := LastPiece(s[1..], c);
        SplitLast(s[1..], c);
        SuffixOfTail(s, |p|);
        if c in s[1..] {
          assert s[|s| - |p| - 1] == s[1..][|s| - 1 - |p| - 1];
        }
      }
    }
  }

  lemma SuffixOfTail(s: string, n: nat)
    requires n < |s|
    ensures s[1..][|s| - 1 - n..] == s[|s| - n..]
  {
  }
}
