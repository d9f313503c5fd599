/**
  The string operations the engine uses from Go's `strings` and `regexp` packages:
  the RE2 whitespace class `\s`, deleting every `\s`, trimming one `\s` at each end,
  `strings.Split` on one separator, `strings.Join`, `strings.Contains`,
  `strings.HasPrefix`, and splitting on the pattern `\s*,\s*`.
*/
module Strings {

  /** RE2's `\s`: space, tab, line feed, form feed and carriage return (no vertical tab). */
  predicate IsSpace(c: char) {
    c == ' ' || c == '\t' || c == '\n' || c == '\U{000C}' || c == '\r'
  }

  predicate NoSpaces(s: string) {
    forall i :: 0 <= i < |s| ==> !IsSpace(s[i])
  }

  /** A string that neither starts nor ends with `\s`. */
  predicate Trimmed(s: string) {
    s == [] || (!IsSpace(s[0]) && !IsSpace(s[|s| - 1]))
  }

  /** `regexp.MustCompile(`\s`).ReplaceAllString(s, "")`. */
  function RemoveSpaces(s: string): (r: string)
    ensures NoSpaces(r)
    ensures |r| <= |s|
  {
    if s == [] then []
    else if IsSpace(s[0]) then RemoveSpaces(s[1..])
    else [s[0]] + RemoveSpaces(s[1..])
  }

  /** Deleting spaces leaves a string without spaces as it is. */
  lemma {:induction false} RemoveSpacesKeeps(s: string)
    requires NoSpaces(s)
    ensures RemoveSpaces(s) == s
  {
    if s != [] {
      RemoveSpacesKeeps(s[1..]);
    }
  }

  /** Deleting spaces distributes over concatenation. */
  lemma {:induction false} RemoveSpacesAppend(a: string, b: string)
    ensures RemoveSpaces(a + b) == RemoveSpaces(a) + RemoveSpaces(b)
  {
    if a != [] {
      assert (a + b)[0] == a[0] && (a + b)[1..] == a[1..] + b;
      RemoveSpacesAppend(a[1..], b);
    } else {
      assert a + b == b;
    }
  }

  /**
    Inserting spaces anywhere does not change what is left once the spaces are deleted:
    the parsers that start with `RemoveSpaces` are whitespace-insensitive.
  */
  lemma RemoveSpacesInsert(a: string, w: string, b: string)
    requires forall i :: 0 <= i < |w| ==> IsSpace(w[i])
    ensures RemoveSpaces(a + w + b) == RemoveSpaces(a + b)
  {
    RemoveSpacesAppend(a + w, b);
    RemoveSpacesAppend(a, w);
    RemoveSpacesAppend(a, b);
    AllSpacesVanish(w);
    assert RemoveSpaces(a) + [] == RemoveSpaces(a);
  }

  lemma {:induction false} AllSpacesVanish(w: string)
    requires forall i :: 0 <= i < |w| ==> IsSpace(w[i])
    ensures RemoveSpaces(w) == []
  {
    if w != [] {
      AllSpacesVanish(w[1..]);
    }
  }

  /** `strings.Contains(s, sub)`. */
  predicate Contains(s: string, sub: string)
    decreases |s|
  {
    HasPrefix(s, sub) || (s != [] && Contains(s[1..], sub))
  }

  /** `strings.HasPrefix(s, p)`. */
  predicate HasPrefix(s: string, p: string) {
    |p| <= |s| && s[..|p|] == p
  }

  /**
    `regexp.MustCompile(`^\s|\s$`).ReplaceAllString(s, "")`: one `\s` is removed at the
    start and one at the end; a single space is removed only once.
  */
  function TrimOneSpace(s: string): (r: string)
    ensures |s| - 2 <= |r| <= |s|
    ensures Trimmed(s) ==> r == s
    ensures |s| >= 2 && IsSpace(s[0]) && IsSpace(s[|s| - 1]) ==> r == s[1..|s| - 1]
    ensures |s| >= 1 && IsSpace(s[0]) && !IsSpace(s[|s| - 1]) ==> r == s[1..]
    ensures |s| >= 1 && !IsSpace(s[0]) && IsSpace(s[|s| - 1]) ==> r == s[..|s| - 1]
    ensures |s| == 1 && IsSpace(s[0]) ==> r == []
  {
    var lo := if |s| > 0 && IsSpace(s[0]) then 1 else 0;
    var hi := if |s| > lo && IsSpace(s[|s| - 1]) then |s| - 1 else |s|;
    s[lo..hi]
  }

  /** Leading `\s` removed: what the trailing `\s*` of a `\s*,\s*` match consumes. */
  function TrimLeft(s: string): (r: string)
    ensures |r| <= |s| && (r == [] || !IsSpace(r[0]))
  {
    if s != [] && IsSpace(s[0]) then TrimLeft(s[1..]) else s
  }

  /** Trimming keeps a suffix and drops only spaces. */
  lemma {:induction false} TrimLeftDropsSpaces(s: string)
    ensures TrimLeft(s) == s[|s| - |TrimLeft(s)|..]
    ensures forall i :: 0 <= i < |s| - |TrimLeft(s)| ==> IsSpace(s[i])
  {
    if s != [] && IsSpace(s[0]) {
      TrimLeftDropsSpaces(s[1..]);
    }
  }

  lemma {:induction false} TrimLeftSpaces(w: string, t: string)
    requires forall i :: 0 <= i < |w| ==> IsSpace(w[i])
    requires t == [] || !IsSpace(t[0])
    ensures TrimLeft(w + t) == t
  {
    if w == [] {
      assert w + t == t;
    } else {
      assert (w + t)[0] == w[0] && (w + t)[1..] == w[1..] + t;
      TrimLeftSpaces(w[1..], t);
    }
  }

  /** Trailing `\s` removed: what the leading `\s*` of a `\s*,\s*` match consumes. */
  function TrimRight(s: string): (r: string)
    ensures |r| <= |s| && (r == [] || !IsSpace(r[|r| - 1]))
  {
    if s != [] && IsSpace(s[|s| - 1]) then TrimRight(s[..|s| - 1]) else s
  }

  /** Trimming keeps a prefix and drops only spaces. */
  lemma {:induction false} TrimRightDropsSpaces(s: string)
    ensures TrimRight(s) == s[..|TrimRight(s)|]
    ensures forall i :: |TrimRight(s)| <= i < |s| ==> IsSpace(s[i])
  {
    if s != [] && IsSpace(s[|s| - 1]) {
      TrimRightDropsSpaces(s[..|s| - 1]);
    }
  }

  /** `strings.Split(s, string(sep))`: the pieces between the separators, at least one. */
  function Split(s: string, sep: char): (parts: seq<string>)
    ensures |parts| >= 1
  {
    if s == [] then [[]]
    else
      var rest := Split(s[1..], sep);
      if s[0] == sep then [[]] + rest
      else [[s[0]] + rest[0]] + rest[1..]
  }

  /** No piece holds the separator. */
  lemma {:induction false} SplitPieces(s: string, sep: char)
    ensures forall k :: 0 <= k < |Split(s, sep)| ==> sep !in Split(s, sep)[k]
  {
    if s != [] {
      SplitPieces(s[1..], sep);
    }
  }

  /** `strings.Join(parts, sep)`. */
  function Join(parts: seq<string>, sep: string): string {
    if |parts| == 0 then []
    else if |parts| == 1 then parts[0]
    else parts[0] + sep + Join(parts[1..], sep)
  }

  lemma {:induction false} JoinSnoc(parts: seq<string>, last: string, sep: string)
    requires |parts| >= 1
    ensures Join(parts + [last], sep) == Join(parts, sep) + sep + last
  {
    if |parts| > 1 {
      assert (parts + [last])[1..] == parts[1..] + [last];
      JoinSnoc(parts[1..], last, sep);
    }
  }

  /** Splitting loses nothing: joining the pieces with the separator gives the string back. */
  lemma {:induction false} JoinSplit(s: string, sep: char)
    ensures Join(Split(s, sep), [sep]) == s
  {
    if s != [] {
      JoinSplit(s[1..], sep);
    }
  }

  lemma {:induction false} SplitWithout(s: string, sep: char)
    requires sep !in s
    ensures Split(s, sep) == [s]
  {
    if s != [] {
      SplitWithout(s[1..], sep);
      assert [s[0]] + s[1..] == s;
    }
  }

  lemma {:induction false} SplitAt(a: string, sep: char, t: string)
    requires sep !in a
    ensures Split(a + [sep] + t, sep) == [a] + Split(t, sep)
  {
    if a != [] {
      assert (a + [sep] + t)[0] == a[0] && (a + [sep] + t)[1..] == a[1..] + [sep] + t;
      SplitAt(a[1..], sep, t);
      assert [a[0]] + a[1..] == a;
    } else {
      assert ([sep] + t)[1..] == t;
    }
  }

  /** Splitting undoes joining, when no piece holds the separator. */
  lemma {:induction false} SplitJoin(parts: seq<string>, sep: char)
    requires |parts| >= 1
    requires forall k :: 0 <= k < |parts| ==> sep !in parts[k]
    ensures Split(Join(parts, [sep]), sep) == parts
  {
    if |parts| == 1 {
      SplitWithout(parts[0], sep);
    } else {
      SplitJoin(parts[1..], sep);
      SplitAt(parts[0], sep, Join(parts[1..], [sep]));
    }
  }

  /**
    `regexp.MustCompile(`\s*,\s*`).Split(s, -1)`. Each match is a comma together with the
    whole run of spaces before and after it, so the piece before the first comma loses its
    trailing spaces, the piece after the last comma its leading ones, and every piece in
    between both; with no comma at all, the string is returned untouched.
  */
  function SplitAroundCommas(s: string): (tokens: seq<string>)
    ensures |tokens| == |Split(s, ',')|
  {
    var parts := Split(s, ',');
    seq(|parts|, k requires 0 <= k < |parts| =>
      var p := if k + 1 < |parts| then TrimRight(parts[k]) else parts[k];
      if k > 0 then TrimLeft(p) else p)
  }

  /** No token holds a comma. */
  lemma SplitAroundCommasPieces(s: string)
    ensures forall k :: 0 <= k < |SplitAroundCommas(s)| ==> ',' !in SplitAroundCommas(s)[k]
  {
    var parts, tokens := Split(s, ','), SplitAroundCommas(s);
    SplitPieces(s, ',');
    forall k | 0 <= k < |tokens|
      ensures ',' !in tokens[k]
    {
      TrimKeepsOut(',', parts[k]);
      TrimKeepsOut(',', TrimRight(parts[k]));
    }
  }

  /** Trimming adds no character. */
  lemma TrimKeepsOut(c: char, s: string)
    requires c !in s
    ensures c !in TrimLeft(s) && c !in TrimRight(s)
  {
    TrimLeftDropsSpaces(s);
    TrimRightDropsSpaces(s);
  }

  lemma {:induction false} SplitJoinSpaced(tokens: seq<string>)
    requires |tokens| >= 1
    requires forall k :: 0 <= k < |tokens| ==> ',' !in tokens[k]
    ensures var parts := Split(Join(tokens, ", "), ',');
      && |parts| == |tokens|
      && parts[0] == tokens[0]
      && forall k :: 0 < k < |tokens| ==> parts[k] == " " + tokens[k]
  {
    if |tokens| == 1 {
      SplitWithout(tokens[0], ',');
    } else {
      var rest := Join(tokens[1..], ", ");
      SplitJoinSpaced(tokens[1..]);
      assert tokens[0] + ", " + rest == tokens[0] + [','] + (" " + rest);
      SplitAt(tokens[0], ',', " " + rest);
      var tail := Split(rest, ',');
      assert (" " + rest)[0] == ' ' && (" " + rest)[1..] == rest;
      assert Split(" " + rest, ',') == [" " + tail[0]] + tail[1..];
    }
  }

  /**
    Splitting on `\s*,\s*` undoes joining with ", ", when no token holds a comma or starts
    or ends with a space.
  */
  lemma SplitAroundCommasJoin(tokens: seq<string>)
    requires |tokens| >= 1
    requires forall k :: 0 <= k < |tokens| ==> ',' !in tokens[k] && Trimmed(tokens[k])
    ensures SplitAroundCommas(Join(tokens, ", ")) == tokens
  {
    var parts := Split(Join(tokens, ", "), ',');
    SplitJoinSpaced(tokens);
    var r := SplitAroundCommas(Join(tokens, ", "));
    forall k | 0 <= k < |tokens|
      ensures r[k] == tokens[k]
    {
      TrimToken(parts[k], tokens[k], k > 0, k + 1 < |tokens|);
    }
  }

  /** One piece of a ", "-joined list, trimmed as `SplitAroundCommas` trims it. */
  lemma TrimToken(part: string, token: string, afterComma: bool, beforeComma: bool)
    requires Trimmed(token)
    requires part == if afterComma then " " + token else token
    ensures (var p := if beforeComma then TrimRight(part) else part;
             if afterComma then TrimLeft(p) else p) == token
  {
    if afterComma && beforeComma && token == [] {
      assert TrimRight(part) == TrimRight([]);
    } else if afterComma {
      if beforeComma {
        TrimRightKeeps(part, token);
      }
      TrimLeftSpaces(" ", token);
    } else if beforeComma && token != [] {
      TrimRightKeeps(token, token);
    }
  }

  /** A string that ends like a non-empty trimmed token has no trailing space to trim. */
  lemma TrimRightKeeps(s: string, token: string)
    requires Trimmed(token) && token != [] && |token| <= |s| && s[|s| - |token|..] == token
    ensures TrimRight(s) == s
  {
    assert s[|s| - 1] == token[|token| - 1];
  }

  lemma AppendAssoc<T>(a: seq<T>, b: seq<T>, c: seq<T>)
    ensures (a + b) + c == a + (b + c)
  {
  }
}
