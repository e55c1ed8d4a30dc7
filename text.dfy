/**
  The two pieces of Python string handling the seasonal analysis relies on:
  str.split(' ') with an explicit one-character separator, and int() on the
  resulting token, restricted to an optional sign followed by ASCII digits.
 */
module Text {
  import opened Records

  /**
    str.split(sep) with an explicit separator: the pieces between separators,
    empty pieces included, so there is always one more piece than separators.
   */
  function Split(s: string, sep: char): (parts: seq<string>)
    ensures |parts| >= 1
  {
    if s == [] then [[]]
    else
      var rest := Split(s[1..], sep);
      if s[0] == sep then [[]] + rest else [[s[0]] + rest[0]] + rest[1..]
  }

  /** sep.join(parts): the inverse of Split. */
  function Join(parts: seq<string>, sep: char): string
    requires |parts| >= 1
  {
    if |parts| == 1 then parts[0] else parts[0] + [sep] + Join(parts[1..], sep)
  }

  /** Joining the pieces back with the separator gives the original text. */
  lemma {:induction false} JoinSplit(s: string, sep: char)
    ensures Join(Split(s, sep), sep) == s
  {
    if s != [] {
      var rest := Split(s[1..], sep);
      JoinSplit(s[1..], sep);
      if s[0] == sep {
        assert ([[]] + rest)[1..] == rest;
      } else {
        var parts := [[s[0]] + rest[0]] + rest[1..];
        if |rest| == 1 {
          assert parts == [[s[0]] + rest[0]];
        } else {
          assert parts[1..] == rest[1..];
          assert Join(rest, sep) == rest[0] + [sep] + Join(rest[1..], sep);
        }
      }
    }
  }

  /** No piece contains the separator. */
  lemma {:induction false} SplitPiecesHaveNoSeparator(s: string, sep: char)
    ensures forall i :: 0 <= i < |Split(s, sep)| ==> sep !in Split(s, sep)[i]
  {
    if s != [] {
      SplitPiecesHaveNoSeparator(s[1..], sep);
    }
  }

  /** There is a second piece exactly when the text contains the separator. */
  lemma {:induction false} SplitHasSecondPiece(s: string, sep: char)
    ensures |Split(s, sep)| > 1 <==> sep in s
  {
    if s != [] {
      SplitHasSecondPiece(s[1..], sep);
      assert sep in s <==> s[0] == sep || sep in s[1..] by {
        assert s == [s[0]] + s[1..];
      }
    }
  }

  /** A text with no separator is one piece. */
  lemma {:induction false} SplitWithoutSeparator(t: string, sep: char)
    requires sep !in t
    ensures Split(t, sep) == [t]
  {
    if t != [] {
      assert t[0] != sep && sep !in t[1..] by {
        assert t == [t[0]] + t[1..];
      }
      SplitWithoutSeparator(t[1..], sep);
      assert [t[0]] + t[1..] == t;
    }
  }

  /** Splitting "head<sep>tail" where neither part holds the separator gives [head, tail]. */
  lemma {:induction false} SplitTwoPieces(head: string, tail: string, sep: char)
    requires sep !in head && sep !in tail
    ensures Split(head + [sep] + tail, sep) == [head, tail]
  {
    if head == [] {
      SplitWithoutSeparator(tail, sep);
      assert ([sep] + tail)[1..] == tail;
    } else {
      SplitTwoPieces(head[1..], tail, sep);
      assert (head + [sep] + tail)[1..] == head[1..] + [sep] + tail;
      assert [head[0]] + head[1..] == head;
    }
  }

  /** A separator after a separator-free head starts a new piece: the head is the first piece. */
  lemma {:induction false} SplitAfterHead(head: string, tail: string, sep: char)
    requires sep !in head
    ensures Split(head + [sep] + tail, sep) == [head] + Split(tail, sep)
  {
    if head == [] {
      assert ([sep] + tail)[1..] == tail;
    } else {
      SplitAfterHead(head[1..], tail, sep);
      assert (head + [sep] + tail)[1..] == head[1..] + [sep] + tail;
      assert [head[0]] + head[1..] == head;
    }
  }

  /** A separator-free token followed by nothing or by a separator is the first piece. */
  lemma {:induction false} SplitFirstPiece(token: string, rest: string, sep: char)
    requires sep !in token && (rest == [] || rest[0] == sep)
    ensures Split(token + rest, sep)[0] == token
  {
    if token == [] {
      assert token + rest == rest;
    } else {
      SplitFirstPiece(token[1..], rest, sep);
      assert (token + rest)[1..] == token[1..] + rest;
      assert [token[0]] + token[1..] == token;
    }
  }

  /** The position of the first c in s, or |s| when there is none. */
  function IndexOf(s: string, c: char): (i: nat)
    ensures i <= |s| && c !in s[..i]
    ensures i < |s| <==> c in s
    ensures i < |s| ==> s[i] == c
  {
    if s == [] then 0
    else if s[0] == c then 0
    else
      var j := IndexOf(s[1..], c);
      assert s[..j + 1] == [s[0]] + s[1..][..j];
      assert c in s ==> c in s[1..] by {
        if c in s {
          var k :| 0 <= k < |s| && s[k] == c;
          assert s[1..][k - 1] == c;
        }
      }
      j + 1
  }

  /** A text holding sep is head sep tail, with no sep in head. */
  lemma FirstSeparator(s: string, sep: char) returns (head: string, tail: string)
    requires sep in s
    ensures s == head + [sep] + tail && sep !in head
  {
    var i := IndexOf(s, sep);
    head, tail := s[..i], s[i + 1..];
    assert s == s[..i] + [s[i]] + s[i + 1..];
  }

  /** Any text is token rest, with no sep in token and rest empty or starting with sep. */
  lemma UpToSeparator(t: string, sep: char) returns (token: string, rest: string)
    ensures t == token + rest && sep !in token && (rest == [] || rest[0] == sep)
  {
    var j := IndexOf(t, sep);
    token, rest := t[..j], t[j..];
    assert t == t[..j] + t[j..];
  }

  /**
    Every text holding sep has the shape head sep token rest, where neither
    head nor token holds sep and rest is empty or starts with sep; token is
    then the piece at index 1 of Split(s, sep).
   */
  lemma LabelTokens(s: string, sep: char) returns (head: string, token: string, rest: string)
    requires sep in s
    ensures s == head + [sep] + token + rest
    ensures sep !in head && sep !in token && (rest == [] || rest[0] == sep)
    ensures |Split(s, sep)| > 1 && Split(s, sep)[1] == token
  {
    SplitHasSecondPiece(s, sep);
    var tail;
    head, tail := FirstSeparator(s, sep);
    token, rest := UpToSeparator(tail, sep);
    assert head + [sep] + token + rest == head + [sep] + (token + rest);
    SplitAfterHead(head, tail, sep);
    SplitFirstPiece(token, rest, sep);
  }

  predicate IsDigit(c: char)
  {
    '0' <= c <= '9'
  }

  predicate AllDigits(s: string)
  {
    forall i :: 0 <= i < |s| ==> IsDigit(s[i])
  }

  /** The value of a run of decimal digits, most significant first. */
  function DigitsValue(s: string): (n: nat)
    requires AllDigits(s)
  {
    if s == [] then 0 else DigitsValue(s[..|s| - 1]) * 10 + (s[|s| - 1] as int - '0' as int)
  }

  /** The token starts with a minus sign. */
  predicate Negative(t: string)
  {
    t != [] && t[0] == '-'
  }

  /** The token without its leading sign, if it has one. */
  function Unsigned(t: string): string
  {
    if t != [] && (t[0] == '+' || t[0] == '-') then t[1..] else t
  }

  /**
    int() on a token: an optional '+' or '-' followed by at least one ASCII
    digit; anything else is a ValueError, here None.
   */
  function ParseInt(t: string): (r: Option<int>)
    ensures r.Some? <==> Unsigned(t) != [] && AllDigits(Unsigned(t))
    ensures r.Some? ==> var m: int := DigitsValue(Unsigned(t)); r.value == if Negative(t) then -m else m
  {
    if t == [] then None
    else if t[0] == '+' || t[0] == '-' then
      var digits := t[1..];
      if digits != [] && AllDigits(digits) then
        var magnitude: int := DigitsValue(digits);
        Some(if t[0] == '-' then -magnitude else magnitude)
      else None
    else if AllDigits(t) then Some(DigitsValue(t))
    else None
  }

  /** The canonical decimal spelling of a natural number. */
  function NatToString(n: nat): (s: string)
    ensures |s| >= 1 && AllDigits(s)
  {
    if n < 10 then [('0' as int + n) as char]
    else NatToString(n / 10) + [('0' as int + n % 10) as char]
  }

  /** str(n) for an integer. */
  function IntToString(n: int): string
  {
    if n < 0 then "-" + NatToString(-n) else NatToString(n)
  }

  lemma {:induction false} DigitsValueOfNatToString(n: nat)
    ensures DigitsValue(NatToString(n)) == n
  {
    if n >= 10 {
      DigitsValueOfNatToString(n / 10);
      var s := NatToString(n);
      assert s[..|s| - 1] == NatToString(n / 10);
    }
  }

  /** int() reads back what str() writes: ParseInt(IntToString(n)) == Some(n). */
  lemma ParseIntToString(n: int)
    ensures ParseInt(IntToString(n)) == Some(n)
  {
    if n < 0 {
      DigitsValueOfNatToString(-n);
      assert IntToString(n)[1..] == NatToString(-n);
    } else {
      DigitsValueOfNatToString(n);
      assert NatToString(n)[0] != '+' && NatToString(n)[0] != '-';
    }
  }

  /** A leading zero does not change the value of a run of digits. */
  lemma {:induction false} DigitsValueLeadingZero(d: string)
    requires AllDigits(d)
    ensures AllDigits("0" + d) && DigitsValue("0" + d) == DigitsValue(d)
  {
    if d != [] {
      var z := "0" + d;
      assert z[..|z| - 1] == "0" + d[..|d| - 1];
      DigitsValueLeadingZero(d[..|d| - 1]);
    } else {
      assert ("0" + d)[..0] == [];
    }
  }

  /** int() ignores a leading '+' and leading zeros: "+4", "04" and "4" read alike. */
  lemma ParseIntPlusAndLeadingZero(d: string)
    requires d != [] && AllDigits(d)
    ensures ParseInt("+" + d) == ParseInt(d)
    ensures ParseInt("0" + d) == ParseInt(d)
  {
    assert ("+" + d)[1..] == d;
    DigitsValueLeadingZero(d);
  }

  /** "04" and "+4" read as 4, so a label "Week 04" or "Week +4" is April. */
  lemma ParseIntUnconventionalSpellings()
    ensures ParseInt("04") == Some(4) && ParseInt("+4") == Some(4)
  {
    ParseIntPlusAndLeadingZero("4");
    assert "0" + "4" == "04" && "+" + "4" == "+4";
  }

  lemma ParseIntRejectsEmpty()
    ensures ParseInt("") == None
    ensures ParseInt("-") == None
    ensures ParseInt("x1") == None
  {
  }
}
