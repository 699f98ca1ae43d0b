/**
 * The comma splitting that `LocalClassLoader.loadFactoryNames` delegates to
 * Spring's `StringUtils.commaDelimitedListToStringArray`: a `null` string
 * gives no entries, the empty string gives no entries, and any other string
 * is cut at every comma. Entries are neither trimmed nor dropped when empty.
 */
module StringUtils {
  import opened Wrappers

  /** A string that holds no delimiter. */
  predicate NoComma(s: string) {
    ',' !in s
  }

  /** Number of delimiters in `s`. */
  function CommaCount(s: string): nat {
    multiset(s)[',']
  }

  /**
   * The pieces of `s` between consecutive commas, from left to right; a
   * string with `k` commas has `k + 1` pieces (some possibly empty).
   */
  function Pieces(s: string): (r: seq<string>)
    ensures |r| >= 1
    decreases |s|
  {
    if |s| == 0 then [""]
    else if s[0] == ',' then [""] + Pieces(s[1..])
    else
      var t := Pieces(s[1..]);
      [[s[0]] + t[0]] + t[1..]
  }

  /** The comma-separated rendering of `parts`: the inverse of `Pieces`. */
  function Join(parts: seq<string>): string {
    if |parts| == 0 then ""
    else if |parts| == 1 then parts[0]
    else parts[0] + "," + Join(parts[1..])
  }

  /** Spring's `commaDelimitedListToStringArray`; `None` stands for `null`. */
  function CommaDelimitedListToStringArray(str: Option<string>): (r: seq<string>)
    ensures str.None? ==> r == []
    ensures str == Some("") ==> r == []
    ensures str.Some? && str.value != "" ==> Join(r) == str.value
    ensures forall k :: 0 <= k < |r| ==> NoComma(r[k])
  {
    match str
    case None => []
    case Some(s) =>
      if s == "" then []
      else
        JoinPieces(s);
        PiecesHaveNoComma(s);
        Pieces(s)
  }

  /** Joining the pieces gives back the very string: nothing is trimmed or dropped. */
  lemma {:induction false} JoinPieces(s: string)
    ensures Join(Pieces(s)) == s
    decreases |s|
  {
    if |s| == 0 {
    } else {
      var rest := s[1..];
      var t := Pieces(rest);
      JoinPieces(rest);
      assert s == [s[0]] + rest;
      if s[0] == ',' {
        assert Pieces(s) == [""] + t;
        assert Join([""] + t) == "" + "," + Join(t) by {
          assert ([""] + t)[1..] == t;
        }
      } else {
        var p := [[s[0]] + t[0]] + t[1..];
        assert Pieces(s) == p;
        if |t| == 1 {
          assert Join(p) == [s[0]] + t[0];
        } else {
          assert p[1..] == t[1..];
          assert Join(p) == ([s[0]] + t[0]) + "," + Join(t[1..]);
          assert Join(t) == t[0] + "," + Join(t[1..]);
        }
      }
    }
  }

  /** No piece contains a comma. */
  lemma {:induction false} PiecesHaveNoComma(s: string)
    ensures forall k :: 0 <= k < |Pieces(s)| ==> NoComma(Pieces(s)[k])
    decreases |s|
  {
    if |s| > 0 {
      PiecesHaveNoComma(s[1..]);
      var t := Pieces(s[1..]);
      if s[0] != ',' {
        assert ',' !in t[0];
        assert ',' !in [s[0]] + t[0];
      }
    }
  }

  /** A string without commas is a single piece. */
  lemma {:induction false} PiecesOfNoComma(s: string)
    requires NoComma(s)
    ensures Pieces(s) == [s]
    decreases |s|
  {
    if |s| > 0 {
      assert s[0] in s;
      assert NoComma(s[1..]) by {
        forall c | c in s[1..] ensures c != ',' {
          assert c in s;
        }
      }
      PiecesOfNoComma(s[1..]);
      assert [s[0]] + s[1..] == s;
    }
  }

  /** A comma-free prefix followed by a comma becomes the first piece. */
  lemma {:induction false} PiecesAfterFirstComma(x: string, y: string)
    requires NoComma(x)
    ensures Pieces(x + "," + y) == [x] + Pieces(y)
    decreases |x|
  {
    if |x| == 0 {
      assert x + "," + y == [','] + y;
      assert (x + "," + y)[1..] == y;
    } else {
      var s := x + "," + y;
      assert x[0] in x;
      assert NoComma(x[1..]) by {
        forall c | c in x[1..] ensures c != ',' {
          assert c in x;
        }
      }
      assert s[1..] == x[1..] + "," + y;
      PiecesAfterFirstComma(x[1..], y);
      assert s[0] == x[0];
      assert [x[0]] + x[1..] == x;
    }
  }

  /** Cutting a comma-joined list of comma-free parts gives the parts back. */
  lemma {:induction false} PiecesJoin(parts: seq<string>)
    requires |parts| >= 1
    requires forall k :: 0 <= k < |parts| ==> NoComma(parts[k])
    ensures Pieces(Join(parts)) == parts
    decreases |parts|
  {
    if |parts| == 1 {
      PiecesOfNoComma(parts[0]);
    } else {
      PiecesJoin(parts[1..]);
      PiecesAfterFirstComma(parts[0], Join(parts[1..]));
      assert [parts[0]] + parts[1..] == parts;
    }
  }

  /** `k` commas give `k + 1` pieces. */
  lemma {:induction false} PiecesCount(s: string)
    ensures |Pieces(s)| == CommaCount(s) + 1
    decreases |s|
  {
    if |s| > 0 {
      PiecesCount(s[1..]);
      assert s == [s[0]] + s[1..];
      assert multiset(s) == multiset([s[0]]) + multiset(s[1..]);
    }
  }

  /**
   * Round trip through the Spring routine: a non-empty list of comma-free
   * entries, other than the single empty entry, survives joining and
   * splitting unchanged, empty entries included.
   */
  lemma CommaDelimitedRoundTrip(parts: seq<string>)
    requires |parts| >= 1 && parts != [""]
    requires forall k :: 0 <= k < |parts| ==> NoComma(parts[k])
    ensures CommaDelimitedListToStringArray(Some(Join(parts))) == parts
  {
    if |parts| >= 2 {
      assert Join(parts) == parts[0] + "," + Join(parts[1..]);
      assert Join(parts)[|parts[0]|] == ',';
    }
    PiecesJoin(parts);
  }

  /** A non-empty value yields exactly one entry more than it has commas. */
  lemma CommaDelimitedCount(s: string)
    requires s != ""
    ensures |CommaDelimitedListToStringArray(Some(s))| == CommaCount(s) + 1
  {
    PiecesCount(s);
  }
}
