// The output stream of Sstreams/OSstream.C: characters are appended to the
// underlying std::ostream (`os`) and the stream counts the newlines it has
// written. A string is written quoted, with newlines and double quotes
// escaped by a backslash; a run of backslashes is held back until a
// character follows, so trailing backslashes disappear.
module OSstreams {
  import opened IOstreamOptions

  const NL: char := '\n'
  const Quote: char := '"'
  const Backslash: char := '\\'

  function Backslashes(n: nat): (r: string)
    ensures |r| == n && forall i :: 0 <= i < n ==> r[i] == Backslash
  {
    if n == 0 then [] else Backslashes(n - 1) + [Backslash]
  }

  /** The number of occurrences of c in s. */
  function Count(s: string, c: char): (r: nat)
    ensures r <= |s|
  {
    if |s| == 0 then 0 else Count(s[..|s| - 1], c) + (if s[|s| - 1] == c then 1 else 0)
  }

  lemma CountAppend(a: string, b: string, c: char)
    ensures Count(a + b, c) == Count(a, c) + Count(b, c)
  {
    if |b| > 0 {
      assert (a + b)[..|a + b| - 1] == a + b[..|b| - 1];
      CountAppend(a, b[..|b| - 1], c);
    } else {
      assert a + b == a;
    }
  }

  /** A character escaped with one backslash: newline and double quote. */
  predicate Special(c: char)
  {
    c == NL || c == Quote
  }

  /** The escaped text of s with `pending` backslashes held back: a run of
      backslashes is emitted before the next other character, one more if
      that character is special, and dropped at the end. */
  function EscapeFrom(s: string, pending: nat): string
  {
    if |s| == 0 then []
    else if s[0] == Backslash then EscapeFrom(s[1..], pending + 1)
    else Backslashes(pending + (if Special(s[0]) then 1 else 0)) + [s[0]] + EscapeFrom(s[1..], 0)
  }

  /** The backslashes still held back after s. */
  function PendingAfter(s: string, pending: nat): nat
  {
    if |s| == 0 then pending
    else PendingAfter(s[1..], if s[0] == Backslash then pending + 1 else 0)
  }

  function Escape(s: string): string
  {
    EscapeFrom(s, 0)
  }

  /** Escaping a concatenation escapes the first part and then the second
      with the first part's held-back backslashes. */
  lemma {:induction false} EscapeAppend(a: string, b: string, pending: nat)
    ensures EscapeFrom(a + b, pending) == EscapeFrom(a, pending) + EscapeFrom(b, PendingAfter(a, pending))
  {
    if |a| > 0 {
      assert (a + b)[0] == a[0] && (a + b)[1..] == a[1..] + b;
      EscapeAppend(a[1..], b, if a[0] == Backslash then pending + 1 else 0);
    } else {
      assert a + b == b;
    }
  }

  /** Trailing backslashes are dropped. */
  lemma TrailingBackslashDropped(s: string)
    ensures Escape(s + [Backslash]) == Escape(s)
  {
    EscapeAppend(s, [Backslash], 0);
    assert EscapeFrom([Backslash], PendingAfter(s, 0)) == [];
  }

  /** The number of characters s ends with that are backslashes. */
  function TrailingBackslashes(s: string): (r: nat)
    ensures r <= |s|
  {
    if |s| > 0 && s[|s| - 1] == Backslash then TrailingBackslashes(s[..|s| - 1]) + 1 else 0
  }

  /** The escaped text adds exactly one backslash per newline or quote and
      loses exactly the trailing backslashes. */
  lemma {:induction false} EscapeLength(s: string, pending: nat)
    ensures |EscapeFrom(s, pending)| + PendingAfter(s, pending)
            == pending + |s| + Count(s, NL) + Count(s, Quote)
  {
    if |s| > 0 {
      EscapeLength(s[1..], if s[0] == Backslash then pending + 1 else 0);
      assert s == [s[0]] + s[1..];
      CountAppend([s[0]], s[1..], NL);
      CountAppend([s[0]], s[1..], Quote);
      assert Count([s[0]], NL) == (if s[0] == NL then 1 else 0);
      assert Count([s[0]], Quote) == (if s[0] == Quote then 1 else 0);
    }
  }

  lemma {:induction false} PendingIsTrailing(s: string)
    ensures PendingAfter(s, 0) == TrailingBackslashes(s)
  {
    if |s| > 0 {
      var init := s[..|s| - 1];
      assert s == init + [s[|s| - 1]];
      PendingAppend(init, [s[|s| - 1]], 0);
      PendingIsTrailing(init);
    }
  }

  lemma {:induction false} PendingAppend(a: string, b: string, pending: nat)
    ensures PendingAfter(a + b, pending) == PendingAfter(b, PendingAfter(a, pending))
  {
    if |a| > 0 {
      assert (a + b)[0] == a[0] && (a + b)[1..] == a[1..] + b;
      PendingAppend(a[1..], b, if a[0] == Backslash then pending + 1 else 0);
    } else {
      assert a + b == b;
    }
  }

  /** The length of a written string: two quotes, every character but the
      trailing backslashes, and one escape per newline or quote. */
  lemma EscapedLength(s: string)
    ensures |Escape(s)| + TrailingBackslashes(s) == |s| + Count(s, NL) + Count(s, Quote)
  {
    EscapeLength(s, 0);
    PendingIsTrailing(s);
  }

  /** Without backslashes, escaping puts one backslash before every newline
      and quote and keeps everything else. */
  lemma {:induction false} EscapeWithoutBackslashes(s: string)
    requires Backslash !in s
    ensures Escape(s) == EscapeChars(s)
  {
    if |s| > 0 {
      assert Backslash !in s[1..] by {
        assert forall c :: c in s[1..] ==> c in s;
      }
      EscapeWithoutBackslashes(s[1..]);
    }
  }

  function EscapeChars(s: string): string
  {
    if |s| == 0 then [] else (if Special(s[0]) then [Backslash, s[0]] else [s[0]]) + EscapeChars(s[1..])
  }

  /** Escaping one more character: a backslash is held back, any other
      character releases the held-back run. */
  lemma EscapeSnoc(s: string, c: char)
    ensures Escape(s + [c]) == Escape(s) + (if c == Backslash then []
                                            else Backslashes(PendingAfter(s, 0) + (if Special(c) then 1 else 0)) + [c])
    ensures PendingAfter(s + [c], 0) == (if c == Backslash then PendingAfter(s, 0) + 1 else 0)
    ensures Count(s + [c], NL) == Count(s, NL) + (if c == NL then 1 else 0)
  {
    EscapeAppend(s, [c], 0);
    PendingAppend(s, [c], 0);
    assert (s + [c])[..|s + [c]| - 1] == s;
  }

  /** The text token::VERBATIMSTRING is written with. */
  function Verbatim(s: string): string
  {
    "#{" + s + "#}"
  }

  datatype TokenType = VERBATIMSTRING | VARIABLE | OTHER

  class OSstream {
    /** The characters written to the underlying std::ostream. */
    var os: string
    var lineNumber: int
    const format: StreamFormat
    var indentLevel: nat
    const indentSize: nat
    /** setBad(): the stream is no longer good. */
    var bad: bool

    constructor(format: StreamFormat, indentSize: nat, lineNumber: int)
      ensures os == [] && this.lineNumber == lineNumber && !bad && indentLevel == 0
      ensures this.format == format && this.indentSize == indentSize
    {
      os := [];
      this.lineNumber := lineNumber;
      this.format := format;
      indentLevel := 0;
      this.indentSize := indentSize;
      bad := false;
    }

    /** write(char): a newline advances the line number. */
    method WriteChar(c: char)
      modifies this
      ensures os == old(os) + [c]
      ensures lineNumber == old(lineNumber) + (if c == NL then 1 else 0)
      ensures indentLevel == old(indentLevel) && bad == old(bad)
    {
      os := os + [c];
      if c == NL {
        lineNumber := lineNumber + 1;
      }
    }

    /** write(const char*) and the unquoted writeQuoted: the text as it is,
        the line number advanced by its newlines. */
    method WriteVerbatim(str: string)
      modifies this
      ensures os == old(os) + str
      ensures lineNumber == old(lineNumber) + Count(str, NL)
      ensures indentLevel == old(indentLevel) && bad == old(bad)
    {
      lineNumber := lineNumber + Count(str, NL);
      os := os + str;
    }

    /** write(word): the word as it is; words never advance the line
        number. */
    method WriteWord(str: string)
      modifies this
      ensures os == old(os) + str && lineNumber == old(lineNumber)
      ensures indentLevel == old(indentLevel) && bad == old(bad)
    {
      os := os + str;
    }

    /** One character of write(string) other than a backslash: the held-back
        backslashes, one more before a newline or quote, then the character. */
    method EmitEscaped(c: char, backslash: nat)
      requires c != Backslash
      modifies this
      ensures os == old(os) + Backslashes(backslash + (if Special(c) then 1 else 0)) + [c]
      ensures lineNumber == old(lineNumber) + (if c == NL then 1 else 0)
      ensures indentLevel == old(indentLevel) && bad == old(bad)
    {
      var n := backslash;
      if c == NL {
        lineNumber := lineNumber + 1;
        n := n + 1;
      } else if c == Quote {
        n := n + 1;
      }
      ghost var total := n;
      while n > 0
        invariant n <= total && os == old(os) + Backslashes(total - n)
        invariant lineNumber == old(lineNumber) + (if c == NL then 1 else 0)
        invariant indentLevel == old(indentLevel) && bad == old(bad)
      {
        os := os + [Backslash];
        n := n - 1;
      }
      os := os + [c];
    }

    /** write(string) and the quoted writeQuoted. */
    method WriteString(str: string)
      modifies this
      ensures os == old(os) + [Quote] + Escape(str) + [Quote]
      ensures lineNumber == old(lineNumber) + Count(str, NL)
      ensures indentLevel == old(indentLevel) && bad == old(bad)
    {
      os := os + [Quote];
      ghost var start := os;
      var backslash: nat := 0;
      var i := 0;
      while i < |str|
        invariant 0 <= i <= |str|
        invariant os == start + Escape(str[..i]) && backslash == PendingAfter(str[..i], 0)
        invariant lineNumber == old(lineNumber) + Count(str[..i], NL)
        invariant indentLevel == old(indentLevel) && bad == old(bad)
      {
        var c := str[i];
        assert str[..i + 1] == str[..i] + [c];
        EscapeSnoc(str[..i], c);
        if c == Backslash {
          backslash := backslash + 1;
        } else {
          EmitEscaped(c, backslash);
          backslash := 0;
        }
        i := i + 1;
      }
      assert str[..i] == str;
      os := os + [Quote];
    }

    /** writeQuoted(str, quoted). */
    method WriteQuoted(str: string, quoted: bool)
      modifies this
      ensures os == old(os) + (if quoted then [Quote] + Escape(str) + [Quote] else str)
      ensures lineNumber == old(lineNumber) + Count(str, NL)
      ensures indentLevel == old(indentLevel) && bad == old(bad)
    {
      if quoted {
        WriteString(str);
      } else {
        WriteVerbatim(str);
      }
    }

    /** write(buf, count): binary data between parentheses; on a stream
        that is not BINARY it is fatal (false, nothing written). */
    method WriteBuffer(buf: string) returns (ok: bool)
      modifies this
      ensures ok <==> format == BINARY
      ensures ok ==> os == old(os) + "(" + buf + ")"
      ensures !ok ==> os == old(os)
      ensures lineNumber == old(lineNumber) && indentLevel == old(indentLevel) && bad == old(bad)
    {
      if format != BINARY {
        return false;
      }
      os := os + "(" + buf + ")";
      ok := true;
    }

    /** write(token): a verbatim string between "#{" and "#}", a variable
        as it is; other tokens write nothing. */
    method WriteToken(t: TokenType, s: string)
      modifies this
      ensures os == old(os) + (match t
                               case VERBATIMSTRING => Verbatim(s)
                               case VARIABLE => s
                               case OTHER => [])
      ensures lineNumber == old(lineNumber) + (if t == OTHER then 0 else Count(s, NL))
      ensures indentLevel == old(indentLevel) && bad == old(bad)
    {
      if t == VERBATIMSTRING {
        WriteChar('#');
        WriteChar('{');
        ghost var afterOpen := os;
        ghost var line := lineNumber;
        WriteQuoted(s, false);
        WriteChar('#');
        WriteChar('}');
        assert lineNumber == line + Count(s, NL);
        assert os == afterOpen + s + ['#', '}'];
      } else if t == VARIABLE {
        WriteQuoted(s, false);
      }
    }

    /** indent(): indentLevel * indentSize spaces. */
    method Indent()
      modifies this
      ensures os == old(os) + Spaces(indentLevel * indentSize)
      ensures lineNumber == old(lineNumber) && indentLevel == old(indentLevel) && bad == old(bad)
    {
      var i := 0;
      while i < indentLevel * indentSize
        invariant 0 <= i <= indentLevel * indentSize
        invariant os == old(os) + Spaces(i)
        invariant lineNumber == old(lineNumber) && indentLevel == old(indentLevel) && bad == old(bad)
      {
        os := os + [' '];
        i := i + 1;
      }
    }

    /** incrIndent(). */
    method IncrIndent()
      modifies this
      ensures indentLevel == old(indentLevel) + 1
      ensures os == old(os) && lineNumber == old(lineNumber) && bad == old(bad)
    {
      indentLevel := indentLevel + 1;
    }

    /** decrIndent(): the level never goes below zero; at zero it stays. */
    method DecrIndent()
      modifies this
      ensures indentLevel == if old(indentLevel) == 0 then 0 else old(indentLevel) - 1
      ensures os == old(os) && lineNumber == old(lineNumber) && bad == old(bad)
    {
      if indentLevel > 0 {
        indentLevel := indentLevel - 1;
      }
    }

    /** The text written to a string stream, taken out and the stream
        emptied (ostringstream::str() then str("")). */
    method TakeBuffer() returns (text: string)
      modifies this
      ensures text == old(os) && os == []
      ensures lineNumber == old(lineNumber) && indentLevel == old(indentLevel) && bad == old(bad)
    {
      text := os;
      os := [];
    }

    /** parwrite and stringStream are not implemented by this stream: they
        mark it bad. */
    method NotImplemented()
      modifies this
      ensures bad && os == old(os) && lineNumber == old(lineNumber) && indentLevel == old(indentLevel)
    {
      bad := true;
    }
  }

  function Spaces(n: nat): (r: string)
    ensures |r| == n && forall i :: 0 <= i < n ==> r[i] == ' '
  {
    if n == 0 then [] else Spaces(n - 1) + [' ']
  }
}
