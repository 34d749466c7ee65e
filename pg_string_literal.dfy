/**
  Single-quoted string constants as PostgreSQL reads them (section 4.1.2.1, "String
  Constants", of the PostgreSQL documentation; the same rule as ISO/IEC 9075 character
  string literals): inside the quotes, a quote character is written as two adjacent quotes.
  Backslashes are ordinary characters (standard_conforming_strings on, the default).
 */
module PgStringLiteral {
  import opened Results

  const Quote: char := '\''

  /** What one character becomes: a quote is doubled, anything else is kept. */
  function EscapeChar(c: char): string {
    if c == Quote then [Quote, Quote] else [c]
  }

  /** `s.replace("'", "''")`. */
  function Escape(s: string): (r: string)
    ensures |s| <= |r| <= 2 * |s|
  {
    if s == [] then [] else EscapeChar(s[0]) + Escape(s[1..])
  }

  /** The escaped text is longer by exactly the number of quotes. */
  lemma {:induction false} EscapeLength(s: string)
    ensures |Escape(s)| == |s| + multiset(s)[Quote]
  {
    if s != [] {
      EscapeLength(s[1..]);
      assert s == [s[0]] + s[1..];
    }
  }

  /** Escaping a text that starts with `c`: the escaped `c`, then the escaped rest. */
  lemma EscapeCons(c: char, t: string)
    ensures Escape([c] + t) == EscapeChar(c) + Escape(t)
  {
    assert ([c] + t)[0] == c && ([c] + t)[1..] == t;
  }

  /** Escaping works piece by piece. */
  lemma {:induction false} EscapeConcat(a: string, b: string)
    ensures Escape(a + b) == Escape(a) + Escape(b)
  {
    if a == [] {
      assert a + b == b;
    } else {
      assert (a + b)[0] == a[0] && (a + b)[1..] == a[1..] + b;
      EscapeConcat(a[1..], b);
    }
  }

  /** Text without a quote is left as it is. */
  lemma {:induction false} EscapeQuoteFree(s: string)
    requires Quote !in s
    ensures Escape(s) == s
  {
    if s != [] {
      EscapeQuoteFree(s[1..]);
    }
  }

  /** Turn each `''` back into `'`, left to right. */
  function Collapse(s: string): string {
    if s == [] then []
    else if |s| >= 2 && s[0] == Quote && s[1] == Quote then [Quote] + Collapse(s[2..])
    else [s[0]] + Collapse(s[1..])
  }

  /** Collapsing the doubled quotes gives back the original text. */
  lemma {:induction false} CollapseEscape(s: string)
    ensures Collapse(Escape(s)) == s
  {
    if s != [] {
      CollapseEscape(s[1..]);
      var e := Escape(s[1..]);
      if s[0] == Quote {
        assert Escape(s) == [Quote, Quote] + e;
        assert (Escape(s))[2..] == e;
      } else {
        assert Escape(s) == [s[0]] + e;
        assert (Escape(s))[1..] == e;
      }
    }
  }

  /** Every quote in `s` is the first of an adjacent pair: no quote stands alone. */
  predicate QuotesPaired(s: string) {
    if s == [] then true
    else if s[0] == Quote then |s| >= 2 && s[1] == Quote && QuotesPaired(s[2..])
    else QuotesPaired(s[1..])
  }

  lemma {:induction false} EscapePairsQuotes(s: string)
    ensures QuotesPaired(Escape(s))
  {
    if s != [] {
      EscapePairsQuotes(s[1..]);
      var e := Escape(s[1..]);
      if s[0] == Quote {
        assert Escape(s)[2..] == e;
      } else {
        assert Escape(s)[1..] == e;
      }
    }
  }

  /** A string constant read from the text after its opening quote: its value and what follows. */
  datatype Literal = Literal(value: string, rest: string)

  /**
    Reads the body of a single-quoted constant: `''` stands for a quote, a lone quote ends
    the constant; `None` if the text ends first.
   */
  function ReadLiteral(s: string): Option<Literal> {
    if s == [] then None
    else if s[0] == Quote then
      if |s| >= 2 && s[1] == Quote then
        match ReadLiteral(s[2..])
        case None => None
        case Some(lit) => Some(Literal([Quote] + lit.value, lit.rest))
      else Some(Literal([], s[1..]))
    else
      match ReadLiteral(s[1..])
      case None => None
      case Some(lit) => Some(Literal([s[0]] + lit.value, lit.rest))
  }

  /**
    The only texts that read as a constant with value `v` followed by `rest` are
    `Escape(v) + "'" + rest`, and `rest` never starts with a quote.
   */
  lemma {:induction false} ReadLiteralInverse(s: string)
    requires ReadLiteral(s).Some?
    ensures s == Escape(ReadLiteral(s).value.value) + [Quote] + ReadLiteral(s).value.rest
    ensures ReadLiteral(s).value.rest == [] || ReadLiteral(s).value.rest[0] != Quote
  {
    if s[0] == Quote && |s| >= 2 && s[1] == Quote {
      var t := s[2..];
      ReadLiteralInverse(t);
      var inner := ReadLiteral(t).value;
      assert s == [Quote, Quote] + t;
      ReadAfterPair(t);
      PrependEscaped(Quote, t, inner.value, inner.rest);
    } else if s[0] == Quote {
      assert s == [Quote] + s[1..];
    } else {
      var t := s[1..];
      ReadLiteralInverse(t);
      var inner := ReadLiteral(t).value;
      assert s == [s[0]] + t;
      ReadAfterChar(s[0], t);
      PrependEscaped(s[0], t, inner.value, inner.rest);
    }
  }

  /** Putting the escaped form of `c` in front of an escaped value escapes `[c]` followed by that value. */
  lemma PrependEscaped(c: char, t: string, v: string, rest: string)
    requires t == Escape(v) + [Quote] + rest
    ensures EscapeChar(c) + t == Escape([c] + v) + [Quote] + rest
  {
    EscapeCons(c, v);
  }

  /** A doubled quote contributes one quote to the value and reading goes on after it. */
  lemma ReadAfterPair(t: string)
    requires ReadLiteral(t).Some?
    ensures ReadLiteral([Quote, Quote] + t)
            == Some(Literal([Quote] + ReadLiteral(t).value.value, ReadLiteral(t).value.rest))
  {
    assert ([Quote, Quote] + t)[2..] == t;
  }

  /** Any other character is taken into the value as it is. */
  lemma ReadAfterChar(c: char, t: string)
    requires c != Quote && ReadLiteral(t).Some?
    ensures ReadLiteral([c] + t)
            == Some(Literal([c] + ReadLiteral(t).value.value, ReadLiteral(t).value.rest))
  {
    assert ([c] + t)[1..] == t;
  }

  /**
    An escaped value followed by a closing quote reads back as exactly that value, and the
    constant ends at that closing quote: a quote in the value cannot end it early.
    (A quote right after the closing one would make the two read as one escaped quote.)
   */
  lemma {:induction false} ReadEscaped(v: string, rest: string)
    requires rest == [] || rest[0] != Quote
    ensures ReadLiteral(Escape(v) + [Quote] + rest) == Some(Literal(v, rest))
  {
    if v == [] {
      assert Escape(v) + [Quote] + rest == [Quote] + rest;
      assert ([Quote] + rest)[1..] == rest;
    } else {
      ReadEscaped(v[1..], rest);
      var tail := Escape(v[1..]) + [Quote] + rest;
      assert [v[0]] + v[1..] == v;
      PrependEscaped(v[0], tail, v[1..], rest);
      if v[0] == Quote {
        ReadAfterPair(tail);
      } else {
        ReadAfterChar(v[0], tail);
      }
    }
  }
}
