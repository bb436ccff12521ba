/** Text-level helpers of the migration script: the quote-doubling rule for
    character string literals (ISO/IEC 9075-2, subclause 5.3 <literal>),
    a reader for such literals, Python's `sep.join`, the `?` placeholder
    list, the SELECT text of the batch transfer and the unused helper
    `add_single_quotes_if_needed`. */
module SqlText {

  datatype Option<T> = None | Some(value: T)

  const Quote: char := '\''

  /** Python's `sep.join(items)`. */
  function Join(items: seq<string>, sep: string): string
  {
    if |items| == 0 then ""
    else if |items| == 1 then items[0]
    else items[0] + sep + Join(items[1..], sep)
  }

  // ---------------------------------------------------------------------
  // Quote doubling: `str(value).replace("'", "''")`
  // ---------------------------------------------------------------------

  /** Every `'` of `s` replaced by `''`, left to right. */
  function Escape(s: string): string
  {
    if s == [] then []
    else (if s[0] == Quote then [Quote, Quote] else [s[0]]) + Escape(s[1..])
  }

  /** Doubling never shortens a value, leaves quote-free values alone,
      strictly lengthens values holding a quote, and keeps the presence of a
      quote. */
  lemma {:induction false} EscapeLength(s: string)
    ensures |Escape(s)| >= |s|
    ensures Quote !in s ==> Escape(s) == s
    ensures Quote in s ==> |Escape(s)| > |s|
    ensures Quote in Escape(s) <==> Quote in s
  {
    if s != [] {
      EscapeLength(s[1..]);
      var head := if s[0] == Quote then [Quote, Quote] else [s[0]];
      assert Escape(s) == head + Escape(s[1..]);
      assert s == [s[0]] + s[1..];
      assert Quote in Escape(s) <==> Quote in head || Quote in Escape(s[1..]);
      assert Quote in s <==> s[0] == Quote || Quote in s[1..];
    }
  }

  /** Every `'` in `e` is one of an adjacent pair `''` (no lone quote). */
  predicate QuotesDoubled(e: string)
    decreases |e|
  {
    if e == [] then true
    else if e[0] == Quote then |e| >= 2 && e[1] == Quote && QuotesDoubled(e[2..])
    else QuotesDoubled(e[1..])
  }

  /** Replaces each `''` by `'`, left to right (the inverse text rewrite). */
  function Undouble(e: string): string
    decreases |e|
  {
    if e == [] then []
    else if |e| >= 2 && e[0] == Quote && e[1] == Quote then [Quote] + Undouble(e[2..])
    else [e[0]] + Undouble(e[1..])
  }

  /** Escaped text never holds a lone quote, and un-doubling gives back the
      original string exactly. */
  lemma {:induction false} EscapeRoundTrip(s: string)
    ensures QuotesDoubled(Escape(s))
    ensures Undouble(Escape(s)) == s
  {
    if s != [] {
      EscapeRoundTrip(s[1..]);
      var e := Escape(s);
      if s[0] == Quote {
        assert e == [Quote, Quote] + Escape(s[1..]);
        assert e[2..] == Escape(s[1..]);
      } else {
        assert e == [s[0]] + Escape(s[1..]);
        assert e[1..] == Escape(s[1..]);
      }
    }
  }

  /** Conversely, every text without a lone quote is the escape of its
      un-doubling, so escaped texts are exactly the texts without a lone quote. */
  lemma {:induction false} UndoubleRoundTrip(e: string)
    requires QuotesDoubled(e)
    ensures Escape(Undouble(e)) == e
    decreases |e|
  {
    if e != [] {
      if e[0] == Quote {
        UndoubleRoundTrip(e[2..]);
        assert Undouble(e) == [Quote] + Undouble(e[2..]);
        assert Undouble(e)[1..] == Undouble(e[2..]);
        assert e == [Quote, Quote] + e[2..];
      } else {
        UndoubleRoundTrip(e[1..]);
        assert Undouble(e) == [e[0]] + Undouble(e[1..]);
        assert Undouble(e)[1..] == Undouble(e[1..]);
        assert e == [e[0]] + e[1..];
      }
    }
  }

  // ---------------------------------------------------------------------
  // Reading a character string literal back (subclause 5.3 of ISO/IEC 9075-2)
  // ---------------------------------------------------------------------

  /** Reads the body of a character string literal whose opening quote has
      already been consumed: `''` stands for one quote, and a quote not
      followed by another closes the literal. Gives the value and the text
      after the closing quote, or None when the literal is unterminated. */
  function ReadLiteralBody(t: string): (r: Option<(string, string)>)
    ensures r.Some? ==> |r.value.1| < |t|
    decreases |t|
  {
    if t == [] then None
    else if t[0] == Quote && !(|t| >= 2 && t[1] == Quote) then Some(([], t[1..]))
    else
      var skip := if t[0] == Quote then 2 else 1;
      var inner := ReadLiteralBody(t[skip..]);
      if inner.None? then None else Some(([t[0]] + inner.value.0, inner.value.1))
  }

  /** A whole literal: opening quote, body, closing quote. */
  function ReadLiteral(t: string): Option<(string, string)>
  {
    if t != [] && t[0] == Quote then ReadLiteralBody(t[1..]) else None
  }

  lemma EscapeCons(c: char, s: string)
    ensures Escape([c] + s) == (if c == Quote then [Quote, Quote] else [c]) + Escape(s)
  {
    assert ([c] + s)[1..] == s;
  }

  /** One step of the reader over an escaped first character. */
  lemma ReadEscapedStep(c: char, s: string, rest: string)
    requires ReadLiteralBody(Escape(s) + [Quote] + rest) == Some((s, rest))
    ensures ReadLiteralBody(Escape([c] + s) + [Quote] + rest) == Some(([c] + s, rest))
  {
    var tail := Escape(s) + [Quote] + rest;
    var head := if c == Quote then [Quote, Quote] else [c];
    var t := head + tail;
    EscapeCons(c, s);
    assert Escape([c] + s) + [Quote] + rest == t;
    assert t[0] == c;
    assert c == Quote ==> t[1] == Quote;
    assert t[|head|..] == tail;
  }

  /** An escaped body followed by a closing quote reads back as the original
      value, leaving the following text untouched. */
  lemma {:induction false} ReadEscaped(s: string, rest: string)
    requires rest == [] || rest[0] != Quote
    ensures ReadLiteralBody(Escape(s) + [Quote] + rest) == Some((s, rest))
  {
    if s == [] {
      assert Escape(s) + [Quote] + rest == [Quote] + rest;
      assert ([Quote] + rest)[1..] == rest;
    } else {
      ReadEscaped(s[1..], rest);
      ReadEscapedStep(s[0], s[1..], rest);
      assert [s[0]] + s[1..] == s;
    }
  }

  /** Whatever the reader accepts is an escaped value, a closing quote and
      text that does not start with a quote. */
  lemma {:induction false} ReadLiteralBodySound(t: string)
    requires ReadLiteralBody(t).Some?
    ensures t == Escape(ReadLiteralBody(t).value.0) + [Quote] + ReadLiteralBody(t).value.1
    ensures ReadLiteralBody(t).value.1 == [] || ReadLiteralBody(t).value.1[0] != Quote
    decreases |t|
  {
    if t[0] == Quote && !(|t| >= 2 && t[1] == Quote) {
      assert ReadLiteralBody(t).value.0 == [];
      assert t == [Quote] + t[1..];
    } else if t[0] == Quote {
      ReadLiteralBodySound(t[2..]);
      assert t == [Quote, Quote] + t[2..];
      ReadSoundStep(Quote, t[2..]);
    } else {
      ReadLiteralBodySound(t[1..]);
      assert t == [t[0]] + t[1..];
      ReadSoundStep(t[0], t[1..]);
    }
  }

  /** The reader's step over one escaped character, as `Escape` writes it. */
  lemma ReadSoundStep(c: char, tail: string)
    requires ReadLiteralBody(tail).Some?
    ensures var head := if c == Quote then [Quote, Quote] else [c];
            var v := ReadLiteralBody(tail).value.0;
            var rest := ReadLiteralBody(tail).value.1;
            && ReadLiteralBody(head + tail) == Some(([c] + v, rest))
            && Escape([c] + v) == head + Escape(v)
  {
    var head := if c == Quote then [Quote, Quote] else [c];
    var t := head + tail;
    assert t[0] == c;
    assert c == Quote ==> t[1] == Quote;
    assert t[|head|..] == tail;
    EscapeCons(c, ReadLiteralBody(tail).value.0);
  }

  // ---------------------------------------------------------------------
  // `add_single_quotes_if_needed` (unused by the script)
  // ---------------------------------------------------------------------

  function AddSingleQuotesIfNeeded(s: string): string
  {
    if Quote in s then [Quote] + s + [Quote] else s
  }

  /** The helper wraps exactly the strings holding a quote, leaves the others
      alone, is not idempotent on the strings it wraps, and what it produces
      from such a string never reads back as that string, since the inner
      quote is not doubled. */
  lemma AddSingleQuotesFacts(s: string)
    ensures Quote !in s ==> AddSingleQuotesIfNeeded(s) == s
    ensures Quote in s ==> AddSingleQuotesIfNeeded(s) == [Quote] + s + [Quote]
    ensures Quote in s ==> AddSingleQuotesIfNeeded(AddSingleQuotesIfNeeded(s)) != AddSingleQuotesIfNeeded(s)
    ensures Quote in s ==> ReadLiteral(AddSingleQuotesIfNeeded(s)) != Some((s, []))
  {
    if Quote in s {
      var w := AddSingleQuotesIfNeeded(s);
      assert Quote in w by { assert w[0] == Quote; }
      assert |AddSingleQuotesIfNeeded(w)| == |w| + 2;
      assert w[1..] == s + [Quote];
      if ReadLiteral(w).Some? {
        ReadLiteralBodySound(w[1..]);
        var v := ReadLiteral(w).value.0;
        var rest := ReadLiteral(w).value.1;
        if rest == [] {
          EscapeLength(s);
          EscapeLength(v);
          assert s + [Quote] == Escape(v) + [Quote];
          assert s == Escape(v) by {
            assert s == (s + [Quote])[..|s|];
            assert Escape(v) == (Escape(v) + [Quote])[..|Escape(v)|];
          }
          assert |v| < |s|;
        }
      }
    }
  }

  // ---------------------------------------------------------------------
  // Column lists, placeholders and the SELECT text
  // ---------------------------------------------------------------------

  /** Splits a text at every `", "`; the inverse of joining with `", "`. */
  function SplitAtCommaSpace(s: string): (r: seq<string>)
    ensures |r| >= 1
    decreases |s|
  {
    if s == [] then [[]]
    else if |s| >= 2 && s[0] == ',' && s[1] == ' ' then [[]] + SplitAtCommaSpace(s[2..])
    else
      var t := SplitAtCommaSpace(s[1..]);
      [[s[0]] + t[0]] + t[1..]
  }

  lemma {:induction false} SplitComposes(c: string, rest: string)
    requires ',' !in c
    ensures SplitAtCommaSpace(c + rest)
         == [c + SplitAtCommaSpace(rest)[0]] + SplitAtCommaSpace(rest)[1..]
  {
    if c != [] {
      SplitComposes(c[1..], rest);
      assert (c + rest)[1..] == c[1..] + rest;
      assert [c[0]] + (c[1..] + SplitAtCommaSpace(rest)[0]) == c + SplitAtCommaSpace(rest)[0];
    } else {
      var t := SplitAtCommaSpace(rest);
      assert c + rest == rest;
      assert c + t[0] == t[0];
      assert t == [t[0]] + t[1..];
    }
  }

  /** Joining names that hold no comma with `", "` and splitting the result
      at `", "` gives back the names, in order. */
  lemma {:induction false} SplitJoin(items: seq<string>)
    requires |items| >= 1
    requires forall i :: 0 <= i < |items| ==> ',' !in items[i]
    ensures SplitAtCommaSpace(Join(items, ", ")) == items
  {
    if |items| == 1 {
      SplitComposes(items[0], []);
      assert items[0] + [] == items[0];
      assert SplitAtCommaSpace([]) == [[]];
      assert Join(items, ", ") == items[0];
    } else {
      var tail := Join(items[1..], ", ");
      SplitJoin(items[1..]);
      assert Join(items, ", ") == items[0] + (", " + tail);
      SplitComposes(items[0], ", " + tail);
      var u := ", " + tail;
      assert u[0] == ',' && u[1] == ' ' && u[2..] == tail;
      assert SplitAtCommaSpace(u) == [[]] + items[1..];
      assert items[0] + [] == items[0];
      assert items == [items[0]] + items[1..];
    }
  }

  /** The one-character strings `"?" * n` is iterated into by `join`. */
  function Marks(n: nat): seq<string>
  {
    seq(n, _ => "?")
  }

  /** `", ".join("?" * n)`: the VALUES placeholder list of the row-by-row
      copy paths. */
  function Placeholders(n: nat): string
  {
    Join(Marks(n), ", ")
  }

  /** `n` placeholders with `n - 1` separators between them. */
  lemma {:induction false} PlaceholdersLayout(n: nat)
    ensures n == 0 ==> Placeholders(n) == ""
    ensures n >= 1 ==> |Placeholders(n)| == 3 * n - 2
    ensures n >= 1 ==> SplitAtCommaSpace(Placeholders(n)) == Marks(n)
  {
    if n >= 1 {
      SplitJoin(Marks(n));
      PlaceholdersLength(n);
    }
  }

  lemma {:induction false} PlaceholdersLength(n: nat)
    requires n >= 1
    ensures |Placeholders(n)| == 3 * n - 2
  {
    if n > 1 {
      PlaceholdersLength(n - 1);
      assert Marks(n)[1..] == Marks(n - 1);
    }
  }

  /** `SELECT <columns> FROM <table> <where_clause>;` */
  function SelectText(table: string, columns: seq<string>, whereClause: string): string
  {
    "SELECT " + Join(columns, ", ") + " FROM " + table + " " + whereClause + ";"
  }

  /** The select list sits right after `SELECT ` and splits back to the
      selected columns, in order. */
  lemma SelectListRecoversColumns(table: string, columns: seq<string>, whereClause: string)
    requires |columns| >= 1
    requires forall i :: 0 <= i < |columns| ==> ',' !in columns[i]
    ensures var list := Join(columns, ", ");
            SplitAtCommaSpace(SelectText(table, columns, whereClause)[7..7 + |list|]) == columns
  {
    var list := Join(columns, ", ");
    assert SelectText(table, columns, whereClause)[7..7 + |list|] == list;
    SplitJoin(columns);
  }
}
