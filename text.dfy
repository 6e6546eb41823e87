/**
  * The ordinal string operations of the .NET base library that the scanner uses
  * (`Split`, `Contains`, `Replace(p, "")`, `IndexOf`, `Trim`, `ToUpper`, LINQ
  * `Count`), written over `string == seq<char>`.
  */
module Text {

  /** The characters `Char.IsWhiteSpace` accepts, which `String.Trim()` removes. */
  const WhiteSpace: set<char> := {
    '\t', '\n', '\U{000B}', '\U{000C}', '\r', ' ', '\U{0085}', '\U{00A0}', '\U{1680}',
    '\U{2000}', '\U{2001}', '\U{2002}', '\U{2003}', '\U{2004}', '\U{2005}', '\U{2006}',
    '\U{2007}', '\U{2008}', '\U{2009}', '\U{200A}', '\U{2028}', '\U{2029}', '\U{202F}',
    '\U{205F}', '\U{3000}'
  }

  /** Number of occurrences of `c` in `s` (LINQ `s.Count(ch => ch == c)`). */
  function CountChar(s: string, c: char): (n: nat)
    ensures n <= |s|
    ensures n == 0 <==> c !in s
  {
    if s == [] then 0 else (if s[0] == c then 1 else 0) + CountChar(s[1..], c)
  }

  lemma {:induction false} CountCharAppend(a: string, b: string, c: char)
    ensures CountChar(a + b, c) == CountChar(a, c) + CountChar(b, c)
  {
    if a == [] {
      assert a + b == b;
    } else {
      assert (a + b)[1..] == a[1..] + b;
      CountCharAppend(a[1..], b, c);
    }
  }

  /** Ordinal substring test (`s.Contains(p)`): `p` is a prefix of some suffix of `s`. */
  function Contains(s: string, p: string): bool
    decreases |s|
  {
    p <= s || (s != [] && Contains(s[1..], p))
  }

  /** `p` occurs in `s` starting at position `i`. */
  ghost predicate OccursAt(s: string, p: string, i: int)
  {
    0 <= i <= |s| - |p| && s[i..i + |p|] == p
  }

  /** `Contains` holds exactly when `p` occurs in `s` at some position. */
  lemma ContainsSpec(s: string, p: string)
    ensures Contains(s, p) <==> exists i :: OccursAt(s, p, i)
  {
    if Contains(s, p) {
      ContainsFound(s, p);
    }
    forall i | OccursAt(s, p, i)
      ensures Contains(s, p)
    {
      OccursContains(s, p, i);
    }
  }

  lemma {:induction false} ContainsFound(s: string, p: string)
    requires Contains(s, p)
    ensures exists i :: OccursAt(s, p, i)
  {
    if p <= s {
      assert OccursAt(s, p, 0);
    } else {
      ContainsFound(s[1..], p);
      var i :| OccursAt(s[1..], p, i);
      assert s[1..][i..i + |p|] == s[i + 1..i + 1 + |p|];
      assert OccursAt(s, p, i + 1);
    }
  }

  lemma {:induction false} OccursContains(s: string, p: string, i: int)
    requires OccursAt(s, p, i)
    ensures Contains(s, p)
  {
    if i == 0 {
      assert s[..|p|] == p;
    } else {
      assert s[1..][i - 1..i - 1 + |p|] == s[i..i + |p|];
      OccursContains(s[1..], p, i - 1);
    }
  }

  /** A text always contains its own prefix, in particular a line starting with an address. */
  lemma ContainsPrefix(s: string, p: string)
    requires p <= s
    ensures Contains(s, p)
  {
  }

  /** A non-empty pattern that occurs in `s` puts its first character in `s`. */
  lemma ContainsHead(s: string, p: string)
    requires p != [] && Contains(s, p)
    ensures p[0] in s
  {
    ContainsSpec(s, p);
    var i :| OccursAt(s, p, i);
    assert s[i] == s[i..i + |p|][0];
  }

  /**
    * `s.Replace(p, "")`: every occurrence of `p`, found from left to right
    * without overlap, is removed.
    */
  function Erase(s: string, p: string): (r: string)
    requires p != []
    ensures |r| <= |s|
    decreases |s|
  {
    if |p| <= |s| && s[..|p|] == p then Erase(s[|p|..], p)
    else if s == [] then []
    else [s[0]] + Erase(s[1..], p)
  }

  /** Erasing a one-character pattern removes exactly its occurrences and keeps the rest. */
  lemma {:induction false} EraseChar(s: string, c: char)
    ensures |Erase(s, [c])| == |s| - CountChar(s, c)
    ensures c !in Erase(s, [c])
  {
    if s != [] {
      EraseChar(s[1..], c);
    }
  }

  /** A text without the character is left as it is. */
  lemma EraseCharAbsent(s: string, c: char)
    requires c !in s
    ensures Erase(s, [c]) == s
  {
    EraseKeepsPrefix(s, [], [c]);
    assert s + [] == s;
  }

  /**
    * Erasing a character from a text cut at one of its occurrences erases it
    * from both halves and drops the occurrence: the other characters stay, in order.
    */
  lemma {:induction false} EraseCharAround(a: string, b: string, c: char)
    ensures Erase(a + [c] + b, [c]) == Erase(a, [c]) + Erase(b, [c])
  {
    var s := a + [c] + b;
    if a == [] {
      assert s[..1] == [c] && s[1..] == b;
    } else {
      assert s[0] == a[0] && s[1..] == a[1..] + [c] + b;
      assert s[..1] == [a[0]] && a[..1] == [a[0]];
      EraseCharAround(a[1..], b, c);
    }
  }

  /**
    * A prefix in which the pattern's first character never occurs is left as it is:
    * no occurrence of the pattern can start inside it.
    */
  lemma {:induction false} EraseKeepsPrefix(s: string, t: string, p: string)
    requires p != []
    requires forall i :: 0 <= i < |s| ==> s[i] != p[0]
    ensures Erase(s + t, p) == s + Erase(t, p)
  {
    if s != [] {
      var st := s + t;
      assert st[0] == s[0];
      assert |p| <= |st| ==> st[..|p|][0] != p[0];
      assert st[1..] == s[1..] + t;
      EraseKeepsPrefix(s[1..], t, p);
      calc {
        Erase(st, p);
        [s[0]] + Erase(st[1..], p);
        [s[0]] + (s[1..] + Erase(t, p));
        { assert s == [s[0]] + s[1..]; }
        s + Erase(t, p);
      }
    } else {
      assert s + t == t;
    }
  }

  /** The letter `c` in upper case when it is an ASCII lower-case letter, else `c` itself. */
  function UpperChar(c: char): char
  {
    if 'a' <= c <= 'z' then (c as int - 32) as char else c
  }

  /** `s.ToUpper()` on the ASCII letters. */
  function ToUpper(s: string): string
  {
    seq(|s|, i requires 0 <= i < |s| => UpperChar(s[i]))
  }

  /** Upper-casing works character by character, so it distributes over concatenation. */
  lemma ToUpperAppend(a: string, b: string)
    ensures ToUpper(a + b) == ToUpper(a) + ToUpper(b)
  {
  }

  /** Upper-casing twice is upper-casing once, and it never creates or removes a `'-'`. */
  lemma ToUpperSpec(s: string)
    ensures ToUpper(ToUpper(s)) == ToUpper(s)
    ensures '-' in ToUpper(s) <==> '-' in s
  {
    assert forall i :: 0 <= i < |s| ==> (ToUpper(s)[i] == '-' <==> s[i] == '-');
  }

  /**
    * `s.TrimStart()` over the set `ws`: the suffix of `s` left once its leading
    * characters of `ws` are removed.
    */
  function TrimStart(s: string, ws: set<char>): (r: string)
    ensures |r| <= |s| && r == s[|s| - |r|..]
    ensures r == [] || r[0] !in ws
    decreases |s|
  {
    if s != [] && s[0] in ws then TrimStart(s[1..], ws) else s
  }

  /** `TrimStart` removes only characters of `ws`. */
  lemma {:induction false} TrimStartRemoves(s: string, ws: set<char>)
    ensures forall k :: 0 <= k < |s| - |TrimStart(s, ws)| ==> s[k] in ws
  {
    if s != [] && s[0] in ws {
      TrimStartRemoves(s[1..], ws);
    }
  }

  /**
    * `s.TrimEnd()` over the set `ws`: the prefix of `s` left once its trailing
    * characters of `ws` are removed.
    */
  function TrimEnd(s: string, ws: set<char>): (r: string)
    ensures |r| <= |s| && r == s[..|r|]
    ensures r == [] || r[|r| - 1] !in ws
    decreases |s|
  {
    if s != [] && s[|s| - 1] in ws then TrimEnd(s[..|s| - 1], ws) else s
  }

  /** `TrimEnd` removes only characters of `ws`. */
  lemma {:induction false} TrimEndRemoves(s: string, ws: set<char>)
    ensures forall k :: |TrimEnd(s, ws)| <= k < |s| ==> s[k] in ws
  {
    if s != [] && s[|s| - 1] in ws {
      TrimEndRemoves(s[..|s| - 1], ws);
    }
  }

  /** `s[i..j]` is what is left of `s` once its leading and trailing characters of `ws` are removed. */
  ghost predicate TrimmedSlice(s: string, ws: set<char>, i: int, j: int)
  {
    && 0 <= i <= j <= |s|
    && (forall k :: 0 <= k < i ==> s[k] in ws)
    && (forall k :: j <= k < |s| ==> s[k] in ws)
    && (i < j ==> s[i] !in ws && s[j - 1] !in ws)
  }

  /** `s.Trim()` over the set `ws`: a slice of `s` neither starting nor ending with a character of `ws`. */
  function Trim(s: string, ws: set<char>): (r: string)
    ensures r == [] || (r[0] !in ws && r[|r| - 1] !in ws)
    ensures forall c :: c in r ==> c in s
  {
    TrimEnd(TrimStart(s, ws), ws)
  }

  /**
    * `Trim` removes exactly the leading and the trailing characters of `ws`:
    * what it returns is the slice of `s` between them.
    */
  lemma TrimSpec(s: string, ws: set<char>)
    ensures exists i, j :: TrimmedSlice(s, ws, i, j) && Trim(s, ws) == s[i..j]
  {
    TrimmedSliceOf(s, ws, Trim(s, ws));
  }

  /** The text `TrimEnd(TrimStart(s, ws), ws)` is a trimmed slice of `s`. */
  lemma TrimmedSliceOf(s: string, ws: set<char>, r: string)
    requires r == TrimEnd(TrimStart(s, ws), ws)
    ensures exists i, j :: TrimmedSlice(s, ws, i, j) && r == s[i..j]
  {
    var t := TrimStart(s, ws);
    TrimStartRemoves(s, ws);
    TrimEndRemoves(t, ws);
    SliceOfSuffix(s, t, r, ws);
  }

  /**
    * A prefix `r` of a suffix `t` of `s`, where `s` has only characters of `ws`
    * before `t` and `t` only characters of `ws` after `r`, is a trimmed slice of `s`.
    */
  lemma SliceOfSuffix(s: string, t: string, r: string, ws: set<char>)
    requires |t| <= |s| && t == s[|s| - |t|..]
    requires |r| <= |t| && r == t[..|r|]
    requires forall k :: 0 <= k < |s| - |t| ==> s[k] in ws
    requires forall k :: |r| <= k < |t| ==> t[k] in ws
    requires r == [] || (r[0] !in ws && r[|r| - 1] !in ws)
    ensures exists i, j :: TrimmedSlice(s, ws, i, j) && r == s[i..j]
  {
    var i := |s| - |t|;
    forall k | i + |r| <= k < |s|
      ensures s[k] in ws
    {
      assert s[k] == t[k - i];
    }
    assert TrimmedSlice(s, ws, i, i + |r|) && r == s[i..i + |r|];
  }

  /** Leading characters of `ws` make no difference to `TrimStart`. */
  lemma {:induction false} TrimStartSkips(pre: string, s: string, ws: set<char>)
    requires forall k :: 0 <= k < |pre| ==> pre[k] in ws
    ensures TrimStart(pre + s, ws) == TrimStart(s, ws)
  {
    if pre == [] {
      assert pre + s == s;
    } else {
      assert (pre + s)[0] == pre[0] && (pre + s)[1..] == pre[1..] + s;
      TrimStartSkips(pre[1..], s, ws);
    }
  }

  /** Trailing characters of `ws` make no difference to `TrimEnd`. */
  lemma {:induction false} TrimEndSkips(s: string, post: string, ws: set<char>)
    requires forall k :: 0 <= k < |post| ==> post[k] in ws
    ensures TrimEnd(s + post, ws) == TrimEnd(s, ws)
  {
    if post == [] {
      assert s + post == s;
    } else {
      var init := post[..|post| - 1];
      assert (s + post)[|s + post| - 1] == post[|post| - 1];
      assert (s + post)[..|s + post| - 1] == s + init;
      TrimEndSkips(s, init, ws);
    }
  }

  /** White space around a text that neither starts nor ends with white space is what `Trim` removes. */
  lemma TrimPadded(pre: string, s: string, post: string, ws: set<char>)
    requires forall k :: 0 <= k < |pre| ==> pre[k] in ws
    requires forall k :: 0 <= k < |post| ==> post[k] in ws
    requires s != [] && s[0] !in ws && s[|s| - 1] !in ws
    ensures Trim(pre + s + post, ws) == s
  {
    assert pre + s + post == pre + (s + post);
    TrimStartSkips(pre, s + post, ws);
    assert (s + post)[0] == s[0];
    assert TrimStart(s + post, ws) == s + post;
    TrimEndSkips(s, post, ws);
    assert TrimEnd(s, ws) == s;
  }

  /** A text that neither starts nor ends with white space is its own trim. */
  lemma TrimNothing(s: string, ws: set<char>)
    requires s != [] && s[0] !in ws && s[|s| - 1] !in ws
    ensures Trim(s, ws) == s
  {
    assert TrimStart(s, ws) == s;
  }

  /** Index of the first `c` in `s`, or -1 (`s.IndexOf(c)`). */
  function IndexOf(s: string, c: char): (i: int)
    ensures -1 <= i < |s|
    ensures i == -1 <==> c !in s
    ensures 0 <= i ==> s[i] == c && c !in s[..i]
    decreases |s|
  {
    if s == [] then -1
    else if s[0] == c then 0
    else
      var j := IndexOf(s[1..], c);
      if j < 0 then -1 else j + 1
  }

  /**
    * `s.Split(sep)` with `StringSplitOptions.None`: the pieces between the
    * occurrences of `sep`, found from left to right, empty pieces included.
    */
  function Split(s: string, sep: string): (parts: seq<string>)
    requires sep != []
    ensures |parts| >= 1
    decreases |s|
  {
    if |sep| <= |s| && s[..|sep|] == sep then [""] + Split(s[|sep|..], sep)
    else if s == [] then [""]
    else
      var rest := Split(s[1..], sep);
      [[s[0]] + rest[0]] + rest[1..]
  }

  /** The pieces glued back together with `sep` between them (`String.Join`). */
  function Join(parts: seq<string>, sep: string): string
  {
    if |parts| == 0 then ""
    else if |parts| == 1 then parts[0]
    else parts[0] + sep + Join(parts[1..], sep)
  }

  /** Gluing a character onto the first piece glues it onto the joined text. */
  lemma JoinConsFirst(x: char, rest: seq<string>, sep: string)
    requires |rest| >= 1
    ensures Join([[x] + rest[0]] + rest[1..], sep) == [x] + Join(rest, sep)
  {
    var parts := [[x] + rest[0]] + rest[1..];
    assert parts[1..] == rest[1..];
    if |rest| > 1 {
      assert Join(parts, sep) == [x] + rest[0] + sep + Join(rest[1..], sep);
    }
  }

  /** Splitting loses nothing: joining the pieces with the separator gives the text back. */
  lemma {:induction false} JoinSplit(s: string, sep: string)
    requires sep != []
    ensures Join(Split(s, sep), sep) == s
    decreases |s|
  {
    if |sep| <= |s| && s[..|sep|] == sep {
      var tail := s[|sep|..];
      JoinSplit(tail, sep);
      JoinAfterSeparator(Split(tail, sep), sep);
      assert s == sep + tail;
    } else if s != [] {
      var rest := Split(s[1..], sep);
      JoinSplit(s[1..], sep);
      JoinConsFirst(s[0], rest, sep);
      assert s == [s[0]] + s[1..];
    }
  }

  /** An empty first piece contributes only the separator. */
  lemma JoinAfterSeparator(rest: seq<string>, sep: string)
    requires |rest| >= 1
    ensures Join([""] + rest, sep) == sep + Join(rest, sep)
  {
    assert ([""] + rest)[1..] == rest;
    assert "" + sep == sep;
  }

  /**
    * No piece holds an occurrence of the separator, since the left-to-right
    * scan cuts at every one; the first piece is a prefix of the text.
    */
  lemma {:induction false} SplitPiecesFree(s: string, sep: string)
    requires sep != []
    ensures Split(s, sep)[0] <= s
    ensures forall k :: 0 <= k < |Split(s, sep)| ==> !Contains(Split(s, sep)[k], sep)
    decreases |s|
  {
    if |sep| <= |s| && s[..|sep|] == sep {
      SplitPiecesFree(s[|sep|..], sep);
      var rest := Split(s[|sep|..], sep);
      assert Split(s, sep) == [""] + rest;
      assert !Contains("", sep);
    } else if s != [] {
      var rest := Split(s[1..], sep);
      SplitPiecesFree(s[1..], sep);
      var piece := [s[0]] + rest[0];
      assert piece <= s;
      assert !(sep <= piece);
      assert piece[1..] == rest[0];
      assert !Contains(piece, sep);
      assert Split(s, sep) == [piece] + rest[1..];
    } else {
      assert !Contains("", sep);
    }
  }

  /**
    * Splitting on one character yields one piece more than there are
    * separators, and no piece holds the separator.
    */
  lemma {:induction false} SplitOnChar(s: string, c: char)
    ensures |Split(s, [c])| == CountChar(s, c) + 1
    ensures forall k :: 0 <= k < |Split(s, [c])| ==> c !in Split(s, [c])[k]
  {
    if s != [] {
      SplitOnChar(s[1..], c);
      if s[0] == c {
        assert s[..1] == [c];
      } else {
        assert s[..1] != [c];
        var rest := Split(s[1..], [c]);
        assert c !in rest[0];
        assert forall k :: 1 <= k < |rest| ==> c !in rest[k];
      }
    }
  }

  /** A text without the separator splits into itself alone. */
  lemma SplitWithout(s: string, c: char)
    requires c !in s
    ensures Split(s, [c]) == [s]
  {
    SplitOnChar(s, c);
    JoinSplit(s, [c]);
  }

  /** A separator occurrence cuts the text in two independent halves. */
  lemma {:induction false} SplitAround(a: string, b: string, c: char)
    ensures Split(a + [c] + b, [c]) == Split(a, [c]) + Split(b, [c])
  {
    if a == [] {
      SplitConsSeparator(b, c);
      assert a + [c] + b == [c] + b;
    } else {
      SplitAround(a[1..], b, c);
      SplitAroundStep(a[0], a[1..], b, c);
      assert a == [a[0]] + a[1..];
    }
  }

  /** One more leading character keeps the two halves independent. */
  lemma SplitAroundStep(x: char, a: string, b: string, c: char)
    requires Split(a + [c] + b, [c]) == Split(a, [c]) + Split(b, [c])
    ensures Split([x] + a + [c] + b, [c]) == Split([x] + a, [c]) + Split(b, [c])
  {
    var s := a + [c] + b;
    assert [x] + a + [c] + b == [x] + s;
    if x == c {
      SplitConsSeparator(s, c);
      SplitConsSeparator(a, c);
    } else {
      SplitConsOther(x, s, c);
      SplitConsOther(x, a, c);
      GlueFirst([x], Split(a, [c]), Split(b, [c]));
    }
  }

  /** Gluing a prefix onto the first piece of two concatenated piece lists touches only the first list. */
  lemma GlueFirst(x: string, left: seq<string>, right: seq<string>)
    requires |left| >= 1
    ensures [x + (left + right)[0]] + (left + right)[1..] == ([x + left[0]] + left[1..]) + right
  {
    assert (left + right)[0] == left[0];
    assert (left + right)[1..] == left[1..] + right;
  }

  /** A leading separator yields an empty first piece. */
  lemma SplitConsSeparator(s: string, c: char)
    ensures Split([c] + s, [c]) == [""] + Split(s, [c])
  {
    assert ([c] + s)[..1] == [c] && ([c] + s)[1..] == s;
  }

  /** A leading character other than the separator joins the first piece. */
  lemma SplitConsOther(x: char, s: string, c: char)
    requires x != c
    ensures Split([x] + s, [c]) == [[x] + Split(s, [c])[0]] + Split(s, [c])[1..]
  {
    assert ([x] + s)[..1] != [c] && ([x] + s)[1..] == s && ([x] + s)[0] == x;
  }

  /** The pieces that are not empty (`StringSplitOptions.RemoveEmptyEntries`), in order. */
  function NonEmpty(parts: seq<string>): (r: seq<string>)
    ensures |r| <= |parts|
    ensures forall k :: 0 <= k < |r| ==> r[k] != [] && r[k] in parts
    ensures forall p :: p in r <==> p in parts && p != []
  {
    if parts == [] then []
    else
      assert parts == [parts[0]] + parts[1..];
      (if parts[0] == [] then [] else [parts[0]]) + NonEmpty(parts[1..])
  }

  /** Empty pieces are dropped and every other piece is kept, once each and in order. */
  lemma {:induction false} NonEmptyKeepsOrder(before: seq<string>, p: string, after: seq<string>)
    ensures NonEmpty(before + [p] + after) == NonEmpty(before) + (if p == [] then [] else [p]) + NonEmpty(after)
  {
    NonEmptyAppend(before + [p], after);
    NonEmptyAppend(before, [p]);
    NonEmptySingle(p);
  }

  lemma NonEmptySingle(p: string)
    ensures NonEmpty([p]) == if p == [] then [] else [p]
  {
    assert [p][1..] == [];
  }

  lemma {:induction false} NonEmptyAppend(a: seq<string>, b: seq<string>)
    ensures NonEmpty(a + b) == NonEmpty(a) + NonEmpty(b)
  {
    if a != [] {
      assert (a + b)[1..] == a[1..] + b;
      NonEmptyAppend(a[1..], b);
    } else {
      assert a + b == b;
    }
  }
}
