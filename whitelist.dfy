/**
 * The whitelist of queryable variable names: a comma-separated configuration
 * string is split on ',', every piece is trimmed of surrounding whitespace,
 * and empty pieces are dropped. Order and duplicates are kept.
 */
module Whitelist {
  import opened Wrappers

  const Comma: char := ','

  /** The fixed whitespace set that trimming removes. */
  predicate IsSpace(c: char) {
    c == ' ' || c == '\t' || c == '\n' || c == '\r' || c == '\U{B}' || c == '\U{C}'
    || c == '\U{A0}' || c == '\U{FEFF}' || c == '\U{2028}' || c == '\U{2029}'
  }

  predicate AllSpace(s: string) {
    forall k :: 0 <= k < |s| ==> IsSpace(s[k])
  }

  /** Neither end of `s` is whitespace. */
  predicate Trimmed(s: string) {
    s == [] || (!IsSpace(s[0]) && !IsSpace(s[|s| - 1]))
  }

  /** A name that a parsed whitelist may hold. */
  predicate Clean(w: string) {
    w != [] && Trimmed(w) && Comma !in w
  }

  // ---------------------------------------------------------------------
  // Splitting on a separator, and its inverse
  // ---------------------------------------------------------------------

  /**
   * The pieces of `s` between occurrences of `sep`, like a string split on
   * a one-character separator: there is always at least one piece, and ""
   * gives [""].
   */
  function Split(s: string, sep: char): (pieces: seq<string>)
    ensures |pieces| >= 1
    ensures forall i :: 0 <= i < |pieces| ==> sep !in pieces[i]
    decreases |s|
  {
    if s == [] then [[]]
    else
      var rest := Split(s[1..], sep);
      if s[0] == sep then [[]] + rest
      else [[s[0]] + rest[0]] + rest[1..]
  }

  /** The pieces glued back together with `sep` between neighbours. */
  function Join(pieces: seq<string>, sep: char): string
    requires |pieces| >= 1
  {
    if |pieces| == 1 then pieces[0]
    else pieces[0] + [sep] + Join(pieces[1..], sep)
  }

  /** Joining the pieces of a split gives back the original string. */
  lemma {:induction false} JoinSplit(s: string, sep: char)
    ensures Join(Split(s, sep), sep) == s
    decreases |s|
  {
    if s != [] {
      var rest := Split(s[1..], sep);
      JoinSplit(s[1..], sep);
      if s[0] == sep {
        assert Split(s, sep) == [[]] + rest;
        assert ([[]] + rest)[1..] == rest;
      } else if |rest| == 1 {
        assert Split(s, sep) == [[s[0]] + rest[0]];
        assert s == [s[0]] + s[1..];
      } else {
        var pieces := [[s[0]] + rest[0]] + rest[1..];
        assert Split(s, sep) == pieces;
        assert pieces[1..] == rest[1..];
        assert Join(rest, sep) == rest[0] + [sep] + Join(rest[1..], sep);
        assert s == [s[0]] + s[1..];
      }
    }
  }

  /** A separator in the middle splits into the pieces of both sides. */
  lemma {:induction false} SplitConcat(a: string, b: string, sep: char)
    ensures Split(a + [sep] + b, sep) == Split(a, sep) + Split(b, sep)
    decreases |a|
  {
    if a == [] {
      assert a + [sep] + b == [sep] + b;
      assert ([sep] + b)[1..] == b;
    } else {
      var s := a + [sep] + b;
      assert s[0] == a[0];
      assert s[1..] == a[1..] + [sep] + b;
      SplitConcat(a[1..], b, sep);
    }
  }

  /** A string without the separator is a single piece. */
  lemma {:induction false} SplitNoSep(w: string, sep: char)
    requires sep !in w
    ensures Split(w, sep) == [w]
    decreases |w|
  {
    if w != [] {
      assert w[0] != sep;
      assert sep !in w[1..] by {
        forall k | 0 <= k < |w| - 1 ensures w[1..][k] != sep {
          assert w[1..][k] == w[k + 1];
        }
      }
      SplitNoSep(w[1..], sep);
      assert w == [w[0]] + w[1..];
    }
  }

  /** Splitting a join of separator-free pieces gives back the pieces. */
  lemma {:induction false} SplitJoin(pieces: seq<string>, sep: char)
    requires |pieces| >= 1
    requires forall i :: 0 <= i < |pieces| ==> sep !in pieces[i]
    ensures Split(Join(pieces, sep), sep) == pieces
    decreases |pieces|
  {
    SplitNoSep(pieces[0], sep);
    if |pieces| > 1 {
      SplitJoin(pieces[1..], sep);
      SplitConcat(pieces[0], Join(pieces[1..], sep), sep);
      assert pieces == [pieces[0]] + pieces[1..];
    }
  }

  // ---------------------------------------------------------------------
  // Trimming
  // ---------------------------------------------------------------------

  /** `s` without its leading whitespace. */
  function TrimStart(s: string): (r: string)
    ensures |r| <= |s|
    ensures r == [] || !IsSpace(r[0])
    decreases |s|
  {
    if s != [] && IsSpace(s[0]) then TrimStart(s[1..]) else s
  }

  /** `s` without its trailing whitespace; its first character stays. */
  function TrimEnd(s: string): (r: string)
    ensures |r| <= |s|
    ensures r == [] || !IsSpace(r[|r| - 1])
    ensures r == [] || r[0] == s[0]
    decreases |s|
  {
    if s != [] && IsSpace(s[|s| - 1]) then TrimEnd(s[..|s| - 1]) else s
  }

  /** What TrimStart removes: a run of whitespace in front of what it keeps. */
  lemma {:induction false} TrimStartCuts(s: string)
    ensures forall k :: 0 <= k < |TrimStart(s)| ==> TrimStart(s)[k] == s[|s| - |TrimStart(s)| + k]
    ensures forall k :: 0 <= k < |s| - |TrimStart(s)| ==> IsSpace(s[k])
    decreases |s|
  {
    if s != [] && IsSpace(s[0]) {
      var tail := s[1..];
      TrimStartCuts(tail);
      var r := TrimStart(tail);
      assert TrimStart(s) == r;
      var n := |s| - |r|;
      forall k | 0 <= k < |r| ensures r[k] == s[n + k] {
        assert r[k] == tail[(|tail| - |r|) + k];
      }
      forall k | 0 < k < n ensures IsSpace(s[k]) {
        assert s[1..][k - 1] == s[k];
      }
    }
  }

  /** What TrimEnd removes: a run of whitespace after what it keeps. */
  lemma {:induction false} TrimEndCuts(s: string)
    ensures forall k :: 0 <= k < |TrimEnd(s)| ==> TrimEnd(s)[k] == s[k]
    ensures forall k :: |TrimEnd(s)| <= k < |s| ==> IsSpace(s[k])
    decreases |s|
  {
    if s != [] && IsSpace(s[|s| - 1]) {
      var init := s[..|s| - 1];
      TrimEndCuts(init);
      var r := TrimEnd(s);
      forall k | 0 <= k < |r| ensures r[k] == s[k] {
        assert init[k] == s[k];
      }
      forall k | |r| <= k < |s| - 1 ensures IsSpace(s[k]) {
        assert init[k] == s[k];
      }
    }
  }

  /** `s` without whitespace at either end. */
  function Trim(s: string): (r: string)
    ensures Trimmed(r) && |r| <= |s|
  {
    TrimEnd(TrimStart(s))
  }

  /** A string whose ends are not whitespace is left as it is. */
  lemma TrimOfTrimmed(s: string)
    requires Trimmed(s)
    ensures Trim(s) == s
  {
  }

  /** Trimming twice is trimming once. */
  lemma TrimIdempotent(s: string)
    ensures Trim(Trim(s)) == Trim(s)
  {
    TrimOfTrimmed(Trim(s));
  }

  /** Trim applied to every piece, in order. */
  function TrimAll(pieces: seq<string>): (r: seq<string>)
    ensures |r| == |pieces|
  {
    if pieces == [] then [] else [Trim(pieces[0])] + TrimAll(pieces[1..])
  }

  /** Each position holds the trim of the piece at that position. */
  lemma {:induction false} TrimAllAt(pieces: seq<string>, i: nat)
    requires i < |pieces|
    ensures TrimAll(pieces)[i] == Trim(pieces[i])
    decreases i
  {
    if i > 0 {
      TrimAllAt(pieces[1..], i - 1);
    }
  }

  /** Trimming every piece distributes over concatenation. */
  lemma {:induction false} TrimAllConcat(a: seq<string>, b: seq<string>)
    ensures TrimAll(a + b) == TrimAll(a) + TrimAll(b)
    decreases |a|
  {
    if a == [] {
      assert a + b == b;
    } else {
      assert (a + b)[0] == a[0];
      assert (a + b)[1..] == a[1..] + b;
      TrimAllConcat(a[1..], b);
    }
  }

  // ---------------------------------------------------------------------
  // Dropping empty pieces
  // ---------------------------------------------------------------------

  /** The non-empty pieces, in their order and with their repetitions. */
  function NonEmpty(pieces: seq<string>): (r: seq<string>)
    ensures |r| <= |pieces|
    ensures forall i :: 0 <= i < |r| ==> r[i] != []
  {
    if pieces == [] then []
    else (if pieces[0] == [] then [] else [pieces[0]]) + NonEmpty(pieces[1..])
  }

  /** A string is kept exactly when it is one of the pieces and not empty. */
  lemma {:induction false} NonEmptyMembers(pieces: seq<string>, w: string)
    ensures w in NonEmpty(pieces) <==> w in pieces && w != []
    decreases |pieces|
  {
    if pieces != [] {
      NonEmptyMembers(pieces[1..], w);
      assert pieces == [pieces[0]] + pieces[1..];
    }
  }

  /** Dropping empty pieces distributes over concatenation (order is kept). */
  lemma {:induction false} NonEmptyConcat(a: seq<string>, b: seq<string>)
    ensures NonEmpty(a + b) == NonEmpty(a) + NonEmpty(b)
    decreases |a|
  {
    if a == [] {
      assert a + b == b;
    } else {
      assert (a + b)[0] == a[0];
      assert (a + b)[1..] == a[1..] + b;
      NonEmptyConcat(a[1..], b);
    }
  }

  /** A list without empty pieces is kept whole, duplicates included. */
  lemma {:induction false} NonEmptyOfNonEmpty(pieces: seq<string>)
    requires forall i :: 0 <= i < |pieces| ==> pieces[i] != []
    ensures NonEmpty(pieces) == pieces
    decreases |pieces|
  {
    if pieces != [] {
      NonEmptyOfNonEmpty(pieces[1..]);
      assert pieces == [pieces[0]] + pieces[1..];
    }
  }

  // ---------------------------------------------------------------------
  // The whitelist
  // ---------------------------------------------------------------------

  /** The names of a comma-separated list: split, trim, drop empty pieces. */
  function ParseList(s: string): (names: seq<string>)
    ensures forall i :: 0 <= i < |names| ==> Clean(names[i])
  {
    var names := NonEmpty(TrimAll(Split(s, Comma)));
    assert forall i :: 0 <= i < |names| ==> Clean(names[i]) by {
      var pieces := Split(s, Comma);
      forall i | 0 <= i < |names| ensures Clean(names[i]) {
        NonEmptyMembers(TrimAll(pieces), names[i]);
        var j :| 0 <= j < |pieces| && TrimAll(pieces)[j] == names[i];
        TrimAllAt(pieces, j);
        TrimKeepsOut(pieces[j], Comma);
      }
    }
    names
  }

  /** Trimming cannot introduce a character. */
  lemma TrimKeepsOut(s: string, c: char)
    requires c !in s
    ensures c !in Trim(s)
  {
    var t := TrimStart(s);
    assert c !in t by {
      TrimStartCuts(s);
      forall k | 0 <= k < |t| ensures t[k] != c {
        assert t[k] == s[|s| - |t| + k];
      }
    }
    var r := TrimEnd(t);
    assert c !in r by {
      TrimEndCuts(t);
      forall k | 0 <= k < |r| ensures r[k] != c {
        assert r[k] == t[k];
      }
    }
  }

  /**
   * The whitelist configured by an optional variable: an unset variable is
   * read as the empty string. Every name is non-empty, has no whitespace at
   * either end and no comma; an unset or empty variable gives no names.
   */
  function ParseWhitelist(raw: Option<string>): (allowed: seq<string>)
    ensures forall i :: 0 <= i < |allowed| ==> Clean(allowed[i])
    ensures raw == None || raw == Some("") ==> allowed == []
  {
    var s := if raw.Some? then raw.value else [];
    ParseEmpty();
    ParseList(s)
  }

  /** The empty list names nothing: its one piece is empty. */
  lemma ParseEmpty()
    ensures ParseList([]) == []
  {
    var pieces: seq<string> := [[]];
    assert Split([], Comma) == pieces;
    assert pieces[1..] == [];
    assert Trim([]) == [];
    assert TrimAll(pieces) == [[]] + TrimAll([]);
    assert NonEmpty(pieces) == [] + NonEmpty([]);
  }

  /** The names of "a,b" are the names of a followed by the names of b. */
  lemma ParseListConcat(a: string, b: string)
    ensures ParseList(a + [Comma] + b) == ParseList(a) + ParseList(b)
  {
    SplitConcat(a, b, Comma);
    var pa, pb := Split(a, Comma), Split(b, Comma);
    TrimAllConcat(pa, pb);
    NonEmptyConcat(TrimAll(pa), TrimAll(pb));
  }

  /**
   * Round trip: a list of clean names written out with commas parses back
   * to exactly that list, in that order, duplicates included.
   */
  lemma {:induction false} ParseListJoin(names: seq<string>)
    requires |names| >= 1
    requires forall i :: 0 <= i < |names| ==> Clean(names[i])
    ensures ParseList(Join(names, Comma)) == names
  {
    SplitJoin(names, Comma);
    forall i | 0 <= i < |names| ensures Trim(names[i]) == names[i] {
      TrimOfTrimmed(names[i]);
    }
    forall i | 0 <= i < |names| ensures TrimAll(names)[i] == names[i] {
      TrimAllAt(names, i);
    }
    assert TrimAll(names) == names;
    NonEmptyOfNonEmpty(names);
  }

  /** The configured value "a,b" gives the whitelist [a, b]. */
  lemma ParsePair(a: string, b: string)
    requires Clean(a) && Clean(b)
    ensures ParseWhitelist(Some(a + [Comma] + b)) == [a, b]
  {
    assert Join([a, b], Comma) == a + [Comma] + b;
    ParseListJoin([a, b]);
  }

  /** A piece without a comma gives its trimmed self, or nothing if blank. */
  lemma ParseSingle(w: string)
    requires Comma !in w
    ensures ParseList(w) == if Trim(w) == [] then [] else [Trim(w)]
  {
    SplitNoSep(w, Comma);
    var t := Trim(w);
    assert [w][1..] == [];
    assert TrimAll([w]) == [t] + TrimAll([]);
    assert [t][1..] == [];
    assert NonEmpty([t]) == (if t == [] then [] else [t]) + NonEmpty([]);
  }

  /** Whitespace in front of a trimmed name is cut off. */
  lemma {:induction false} TrimPadded(pad: string, w: string)
    requires AllSpace(pad) && Trimmed(w) && w != []
    ensures Trim(pad + w) == w
    decreases |pad|
  {
    if pad == [] {
      assert pad + w == w;
      TrimOfTrimmed(w);
    } else {
      assert (pad + w)[0] == pad[0];
      assert (pad + w)[1..] == pad[1..] + w;
      assert AllSpace(pad[1..]) by {
        forall k | 0 <= k < |pad| - 1 ensures IsSpace(pad[1..][k]) {
          assert pad[1..][k] == pad[k + 1];
        }
      }
      TrimPadded(pad[1..], w);
    }
  }

  /** Three comma-free pieces that are not blank give their three trimmed names. */
  lemma ParseThree(x: string, y: string, z: string)
    requires Comma !in x && Comma !in y && Comma !in z
    requires Trim(x) != [] && Trim(y) != [] && Trim(z) != []
    ensures ParseList(x + [Comma] + y + [Comma] + z) == [Trim(x), Trim(y), Trim(z)]
  {
    var xy := x + [Comma] + y;
    assert ParseList(xy) == [Trim(x), Trim(y)] by {
      ParseSingle(x);
      ParseSingle(y);
      ParseListConcat(x, y);
    }
    assert ParseList(z) == [Trim(z)] by {
      ParseSingle(z);
    }
    ParseListConcat(xy, z);
  }

  /**
   * A configured value such as "A, A,B" gives ["A", "A", "B"]: the padding
   * is trimmed away and the repeated name is kept, in place.
   */
  lemma ParseKeepsDuplicates(x: string, pad: string, z: string)
    requires Clean(x) && Clean(z) && AllSpace(pad)
    ensures ParseWhitelist(Some(x + [Comma] + pad + x + [Comma] + z)) == [x, x, z]
  {
    assert forall k :: 0 <= k < |pad| ==> pad[k] != Comma;
    assert Comma !in pad + x;
    TrimOfTrimmed(x);
    TrimOfTrimmed(z);
    TrimPadded(pad, x);
    ParseThree(x, pad + x, z);
    assert x + [Comma] + pad + x + [Comma] + z == x + [Comma] + (pad + x) + [Comma] + z;
  }
}
