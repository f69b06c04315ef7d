/** The JavaScript string built-ins the section routines rely on, over strings
    modelled as sequences of characters: `String.prototype.trim`,
    `split("\n")`, `Array.prototype.join("\n")` and `String.prototype.includes`. */
module Text {

  /** The characters that `trim` strips and that the regular-expression class
      `\s` matches: ECMAScript's WhiteSpace and LineTerminator characters. */
  predicate IsWhitespace(c: char) {
    c == '\t' || c == '\n' || c == '\U{B}' || c == '\U{C}' || c == '\r' || c == ' '
    || c == '\U{A0}' || c == '\U{1680}' || ('\U{2000}' <= c <= '\U{200A}')
    || c == '\U{2028}' || c == '\U{2029}' || c == '\U{202F}' || c == '\U{205F}'
    || c == '\U{3000}' || c == '\U{FEFF}'
  }

  predicate AllWhitespace(s: string) {
    forall i :: 0 <= i < |s| ==> IsWhitespace(s[i])
  }

  /** No whitespace at either end (the empty string included). */
  predicate IsTrimmed(s: string) {
    s == [] || (!IsWhitespace(s[0]) && !IsWhitespace(s[|s| - 1]))
  }

  /** `s` with its leading whitespace removed. */
  function TrimStart(s: string): string
  {
    if s != [] && IsWhitespace(s[0]) then TrimStart(s[1..]) else s
  }

  /** `s` with its trailing whitespace removed. */
  function TrimEnd(s: string): string
  {
    if s != [] && IsWhitespace(s[|s| - 1]) then TrimEnd(s[..|s| - 1]) else s
  }

  /** `s.trim()`: the whitespace at both ends cut off; what is left is no
      longer than `s` and has no whitespace at either end. */
  function Trim(s: string): (r: string)
    ensures |r| <= |s|
    ensures IsTrimmed(r)
  {
    TrimStartShape(s);
    TrimEndShape(TrimStart(s));
    TrimEnd(TrimStart(s))
  }

  /** `TrimStart` keeps a suffix that does not start with whitespace and cuts only whitespace. */
  lemma {:induction false} TrimStartShape(s: string)
    ensures var r := TrimStart(s);
      |r| <= |s| && r == s[|s| - |r|..] && AllWhitespace(s[..|s| - |r|])
      && (r == [] || !IsWhitespace(r[0]))
  {
    if s != [] && IsWhitespace(s[0]) {
      TrimStartShape(s[1..]);
      var r := TrimStart(s);
      assert r == TrimStart(s[1..]);
      forall i | 0 <= i < |s| - |r| ensures IsWhitespace(s[i]) {
        if i > 0 {
          assert s[i] == s[1..][..|s| - 1 - |r|][i - 1];
        }
      }
    }
  }

  /** `TrimEnd` keeps a prefix that does not end with whitespace and cuts only whitespace. */
  lemma {:induction false} TrimEndShape(s: string)
    ensures var r := TrimEnd(s);
      |r| <= |s| && r == s[..|r|] && AllWhitespace(s[|r|..])
      && (r == [] || !IsWhitespace(r[|r| - 1]))
  {
    if s != [] && IsWhitespace(s[|s| - 1]) {
      TrimEndShape(s[..|s| - 1]);
      var r := TrimEnd(s);
      assert r == TrimEnd(s[..|s| - 1]);
      forall i | |r| <= i < |s| ensures IsWhitespace(s[i]) {
        if i < |s| - 1 {
          assert s[i] == s[..|s| - 1][|r|..][i - |r|];
        }
      }
    }
  }

  /** `trim` keeps the infix of `s` left between two runs of whitespace, and
      that infix has no whitespace at either end. */
  lemma TrimIsInfix(s: string)
    ensures IsTrimmed(Trim(s))
    ensures exists a :: 0 <= a <= |s| - |Trim(s)| && Trim(s) == s[a..a + |Trim(s)|]
                        && AllWhitespace(s[..a]) && AllWhitespace(s[a + |Trim(s)|..])
  {
    TrimStartShape(s);
    TrimEndShape(TrimStart(s));
    TrimParts(s, TrimStart(s), Trim(s));
  }

  lemma TrimParts(s: string, t: string, r: string)
    requires |t| <= |s| && t == s[|s| - |t|..] && AllWhitespace(s[..|s| - |t|])
    requires |r| <= |t| && r == t[..|r|] && AllWhitespace(t[|r|..])
    ensures var a := |s| - |t|;
      0 <= a <= |s| - |r| && r == s[a..a + |r|] && AllWhitespace(s[..a]) && AllWhitespace(s[a + |r|..])
  {
    var a := |s| - |t|;
    assert s[a + |r|..] == t[|r|..];
    assert forall i :: 0 <= i < |r| ==> r[i] == s[a + i];
  }

  lemma {:induction false} TrimStartSkips(p: string, u: string)
    requires AllWhitespace(p)
    requires u == [] || !IsWhitespace(u[0])
    ensures TrimStart(p + u) == u
  {
    if p != [] {
      assert (p + u)[1..] == p[1..] + u;
      TrimStartSkips(p[1..], u);
    } else {
      assert p + u == u;
    }
  }

  lemma {:induction false} TrimEndSkips(u: string, q: string)
    requires AllWhitespace(q)
    requires u == [] || !IsWhitespace(u[|u| - 1])
    ensures TrimEnd(u + q) == u
  {
    if q != [] {
      assert (u + q)[..|u + q| - 1] == u + q[..|q| - 1];
      TrimEndSkips(u, q[..|q| - 1]);
    } else {
      assert u + q == u;
    }
  }

  /** `trim` is determined by its three parts: whatever whitespace surrounds a
      trimmed string `t`, trimming gives back exactly `t`. */
  lemma {:induction false} TrimCharacterized(p: string, t: string, q: string)
    requires AllWhitespace(p) && AllWhitespace(q) && IsTrimmed(t)
    ensures Trim(p + t + q) == t
  {
    if t == [] {
      assert p + t + q == (p + q) + [];
      TrimStartSkips(p + q, []);
      TrimEndSkips([], []);
    } else {
      assert p + t + q == p + (t + q);
      TrimStartSkips(p, t + q);
      TrimEndSkips(t, q);
    }
  }

  /** Trimming twice is trimming once. */
  lemma TrimIdempotent(s: string)
    ensures Trim(Trim(s)) == Trim(s)
  {
    TrimIsInfix(s);
    TrimCharacterized([], Trim(s), []);
    assert [] + Trim(s) + [] == Trim(s);
  }

  /** `s.split("\n")`: the pieces between newlines, in order; the empty string
      splits into one empty piece and a trailing newline yields a trailing
      empty piece. */
  function Split(s: string): (lines: seq<string>)
    ensures |lines| >= 1
  {
    if s == [] then [[]]
    else
      var rest := Split(s[1..]);
      if s[0] == '\n' then [[]] + rest
      else [[s[0]] + rest[0]] + rest[1..]
  }

  /** `lines.join("\n")`: the pieces with one newline between neighbours; the
      result starts with the first piece, and when there is a second piece a
      newline follows the first. */
  function Join(lines: seq<string>): (r: string)
    ensures |lines| >= 1 ==> lines[0] <= r
    ensures |lines| >= 2 ==> |lines[0]| < |r| && r[|lines[0]|] == '\n'
  {
    if |lines| == 0 then []
    else if |lines| == 1 then lines[0]
    else lines[0] + ['\n'] + Join(lines[1..])
  }

  /** Pieces that no newline occurs in, as `split` produces. */
  predicate NewlineFree(lines: seq<string>) {
    forall i :: 0 <= i < |lines| ==> '\n' !in lines[i]
  }

  /** No piece of a split holds a newline. */
  lemma {:induction false} SplitNewlineFree(s: string)
    ensures NewlineFree(Split(s))
  {
    if s != [] {
      SplitNewlineFree(s[1..]);
      var rest := Split(s[1..]);
      if s[0] != '\n' {
        assert '\n' !in rest[0];
        assert '\n' !in [s[0]] + rest[0];
        assert Split(s) == [[s[0]] + rest[0]] + rest[1..];
        forall i | 1 <= i < |Split(s)| ensures '\n' !in Split(s)[i] {
          assert Split(s)[i] == rest[i];
        }
      } else {
        assert Split(s) == [[]] + rest;
        forall i | 1 <= i < |Split(s)| ensures '\n' !in Split(s)[i] {
          assert Split(s)[i] == rest[i - 1];
        }
      }
    }
  }

  /** Any run of consecutive pieces of a newline-free sequence is newline-free. */
  lemma NewlineFreeSlice(lines: seq<string>, i: nat, j: nat)
    requires NewlineFree(lines) && i <= j <= |lines|
    ensures NewlineFree(lines[i..j])
  {
    forall k | 0 <= k < j - i ensures '\n' !in lines[i..j][k] {
      assert lines[i..j][k] == lines[i + k];
    }
  }

  /** Gluing newline-free piece sequences keeps them newline-free. */
  lemma NewlineFreeConcat(a: seq<string>, b: seq<string>)
    requires NewlineFree(a) && NewlineFree(b)
    ensures NewlineFree(a + b)
  {
    forall k | 0 <= k < |a + b| ensures '\n' !in (a + b)[k] {
      if k < |a| {
        assert (a + b)[k] == a[k];
      } else {
        assert (a + b)[k] == b[k - |a|];
      }
    }
  }

  /** Joining the pieces of a split gives back the original string. */
  lemma {:induction false} JoinSplit(s: string)
    ensures Join(Split(s)) == s
  {
    if s != [] {
      var rest := Split(s[1..]);
      JoinSplit(s[1..]);
      if s[0] == '\n' {
        assert Split(s) == [[]] + rest;
        assert (([[]] + rest)[1..]) == rest;
      } else {
        var lines := [[s[0]] + rest[0]] + rest[1..];
        assert Split(s) == lines;
        if |rest| == 1 {
          assert Join(lines) == [s[0]] + rest[0];
        } else {
          assert lines[1..] == rest[1..];
          assert Join(lines) == [s[0]] + (rest[0] + ['\n'] + Join(rest[1..]));
        }
        assert s == [s[0]] + s[1..];
      }
    }
  }

  /** Splitting a piece free of newlines, followed by anything, extends the first piece. */
  lemma {:induction false} SplitAfterPiece(l: string, t: string)
    requires '\n' !in l
    ensures Split(l + t) == [l + Split(t)[0]] + Split(t)[1..]
  {
    if l != [] {
      assert (l + t)[1..] == l[1..] + t;
      SplitAfterPiece(l[1..], t);
      assert l[0] != '\n' && (l + t)[0] == l[0];
      var rest := Split(l[1..] + t);
      assert Split(l + t) == [[l[0]] + rest[0]] + rest[1..];
      assert rest[0] == l[1..] + Split(t)[0];
      assert rest[1..] == Split(t)[1..];
      assert [l[0]] + rest[0] == l + Split(t)[0];
    } else {
      assert l + t == t;
      assert l + Split(t)[0] == Split(t)[0];
      assert Split(t) == [Split(t)[0]] + Split(t)[1..];
    }
  }

  /** Splitting a join of newline-free pieces gives back the pieces. */
  lemma {:induction false} SplitJoin(lines: seq<string>)
    requires |lines| >= 1 && NewlineFree(lines)
    ensures Split(Join(lines)) == lines
  {
    if |lines| == 1 {
      SplitAfterPiece(lines[0], []);
      assert lines[0] + [] == lines[0];
      assert Split([]) == [[]];
      assert lines == [lines[0]];
    } else {
      var tail := Join(lines[1..]);
      SplitJoin(lines[1..]);
      assert Join(lines) == lines[0] + (['\n'] + tail);
      SplitAfterPiece(lines[0], ['\n'] + tail);
      assert (['\n'] + tail)[1..] == tail;
      assert Split(['\n'] + tail) == [[]] + lines[1..];
      assert lines[0] + [] == lines[0];
      assert ([[]] + lines[1..])[1..] == lines[1..];
      assert lines == [lines[0]] + lines[1..];
    }
  }

  /** Joining two non-empty runs of pieces puts one newline between their joins. */
  lemma {:induction false} JoinConcat(a: seq<string>, b: seq<string>)
    requires |a| >= 1 && |b| >= 1
    ensures Join(a + b) == Join(a) + ['\n'] + Join(b)
  {
    if |a| > 1 {
      assert (a + b)[1..] == a[1..] + b;
      JoinConcat(a[1..], b);
    } else {
      assert (a + b)[1..] == b;
    }
  }

  /** `s.includes(sub)`: `sub` occurs in `s` starting at some position. Every
      string includes the empty string, and an included string is never the longer. */
  predicate Includes(s: string, sub: string)
    ensures sub == [] ==> Includes(s, sub)
    ensures Includes(s, sub) ==> |sub| <= |s|
  {
    sub <= s || (s != [] && Includes(s[1..], sub))
  }

  /** The recursive reading of `includes` is the positional one. */
  lemma {:induction false} IncludesAt(s: string, sub: string)
    ensures Includes(s, sub) <==> exists i :: 0 <= i <= |s| && sub <= s[i..]
  {
    if s != [] {
      IncludesAt(s[1..], sub);
      if sub <= s {
        assert s[0..] == s;
      }
      if Includes(s[1..], sub) {
        var i :| 0 <= i <= |s[1..]| && sub <= s[1..][i..];
        assert s[1..][i..] == s[i + 1..];
      }
      if i :| 0 <= i <= |s| && sub <= s[i..] {
        if i > 0 {
          assert s[1..][i - 1..] == s[i..];
          assert 0 <= i - 1 <= |s[1..]| && sub <= s[1..][i - 1..];
        } else {
          assert s[i..] == s;
        }
      }
    } else if Includes(s, sub) {
      assert sub <= s[0..];
    }
  }
}
