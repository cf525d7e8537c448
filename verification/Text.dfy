/** The two string helpers of the database façade (database/mod.rs):
    capitalising every space-separated word, and the post-processing of the
    CSV text a table is written as (a zero appended to one-decimal numbers,
    trailing newlines removed). */
module TextFormat {
  import opened Wrappers

  // ---------------------------------------------------------------------------
  // Splitting on spaces
  // ---------------------------------------------------------------------------

  /** `split(' ')`: the pieces between single spaces, empty ones included;
      there is always at least one piece. */
  function Split(s: string): (words: seq<string>)
    ensures |words| > 0
    ensures forall i :: 0 <= i < |words| ==> ' ' !in words[i]
  {
    if |s| == 0 then [""]
    else
      var rest := Split(s[1..]);
      if s[0] == ' ' then [""] + rest
      else [[s[0]] + rest[0]] + rest[1..]
  }

  /** `join(" ")`. */
  function Join(words: seq<string>): (s: string)
    requires |words| > 0
  {
    if |words| == 1 then words[0] else words[0] + " " + Join(words[1..])
  }

  /** Joining the pieces gives back the string. */
  lemma {:induction false} JoinSplit(s: string)
    ensures Join(Split(s)) == s
    decreases |s|
  {
    if |s| > 0 {
      JoinSplit(s[1..]);
      var rest := Split(s[1..]);
      if s[0] == ' ' {
        assert Split(s)[1..] == rest;
      } else {
        var words := Split(s);
        assert words[0] == [s[0]] + rest[0];
        if |rest| > 1 {
          assert words[1..] == rest[1..];
          assert s == [s[0]] + (rest[0] + " " + Join(rest[1..]));
        } else {
          assert s == [s[0]] + rest[0];
        }
      }
    }
  }

  /** A word without spaces followed by a space splits off as one piece. */
  lemma {:induction false} SplitWordThenSpace(w: string, tail: string)
    requires ' ' !in w
    ensures Split(w + " " + tail) == [w] + Split(tail)
    decreases |w|
  {
    if |w| > 0 {
      SplitWordThenSpace(w[1..], tail);
      var s := w + " " + tail;
      assert s[0] == w[0] && w[0] in w;
      assert s[1..] == w[1..] + " " + tail;
      var rest := Split(s[1..]);
      assert rest[0] == w[1..] && rest[1..] == Split(tail);
      assert [w[0]] + w[1..] == w;
    } else {
      assert w + " " + tail == " " + tail;
      assert (" " + tail)[1..] == tail;
    }
  }

  /** A word without spaces is one piece. */
  lemma {:induction false} SplitWord(w: string)
    requires ' ' !in w
    ensures Split(w) == [w]
    decreases |w|
  {
    if |w| > 0 {
      SplitWord(w[1..]);
      assert w == [w[0]] + w[1..];
    }
  }

  /** Splitting a join of space-free words gives back the words. */
  lemma {:induction false} SplitJoin(words: seq<string>)
    requires |words| > 0
    requires forall i :: 0 <= i < |words| ==> ' ' !in words[i]
    ensures Split(Join(words)) == words
    decreases |words|
  {
    if |words| == 1 {
      SplitWord(words[0]);
    } else {
      SplitJoin(words[1..]);
      SplitWordThenSpace(words[0], Join(words[1..]));
      assert words == [words[0]] + words[1..];
    }
  }

  // ---------------------------------------------------------------------------
  // capitalize_every_word
  // ---------------------------------------------------------------------------

  /** Why taking a word's first byte as a string slice panics. */
  datatype TextError =
    | EmptyWord        // the input is empty, starts or ends with a space, or has two in a row
    | NotCharBoundary  // the word starts with a character longer than one byte in UTF-8

  /** A character of one byte in UTF-8. */
  predicate IsAscii(c: char)
  {
    c as int < 0x80
  }

  /** `to_uppercase` of a one-byte character: only `a`-`z` change. */
  function AsciiUpper(c: char): (u: char)
    requires IsAscii(c)
    ensures IsAscii(u)
    ensures 'a' <= c <= 'z' ==> 'A' <= u <= 'Z' && u as int + 32 == c as int
    ensures !('a' <= c <= 'z') ==> u == c
  {
    if 'a' <= c <= 'z' then (c as int - 32) as char else c
  }

  /** `&word[..1]` succeeds on the word. */
  predicate Sliceable(w: string)
  {
    |w| > 0 && IsAscii(w[0])
  }

  /** The word with its first character uppercased and the rest kept. */
  function CapitalizeWord(w: string): (r: string)
    requires Sliceable(w)
    ensures |r| == |w| && r[1..] == w[1..] && r[0] == AsciiUpper(w[0])
  {
    [AsciiUpper(w[0])] + w[1..]
  }

  /** The words capitalised in order; the first word that cannot be sliced
      panics the whole call. */
  function CapitalizeWords(words: seq<string>): (r: Result<seq<string>, TextError>)
    ensures r.Success? <==> forall i :: 0 <= i < |words| ==> Sliceable(words[i])
    ensures r.Success? ==> |r.value| == |words| && forall i :: 0 <= i < |words| ==> r.value[i] == CapitalizeWord(words[i])
    ensures r.Failure? ==> exists i :: 0 <= i < |words| && !Sliceable(words[i]) &&
                                       (forall j :: 0 <= j < i ==> Sliceable(words[j])) &&
                                       r.error == (if |words[i]| == 0 then EmptyWord else NotCharBoundary)
  {
    if |words| == 0 then Success([])
    else if |words[0]| == 0 then Failure(EmptyWord)
    else if !IsAscii(words[0][0]) then Failure(NotCharBoundary)
    else
      var rest := CapitalizeWords(words[1..]);
      assert forall i :: 1 <= i < |words| ==> words[i] == words[1..][i - 1];
      if rest.Failure? then
        var i :| 0 <= i < |words[1..]| && !Sliceable(words[1..][i]) &&
          (forall j :: 0 <= j < i ==> Sliceable(words[1..][j])) &&
          rest.error == (if |words[1..][i]| == 0 then EmptyWord else NotCharBoundary);
        assert words[i + 1] == words[1..][i];
        Failure(rest.error)
      else Success([CapitalizeWord(words[0])] + rest.value)
  }

  /** `capitalize_every_word`: split on spaces, uppercase each word's first
      character, join with spaces. A word that is empty or starts with a
      multi-byte character makes the slice `&word[..1]` panic, modelled as an
      error. */
  function CapitalizeEveryWord(sentence: string): (r: Result<string, TextError>)
    ensures r.Success? <==> forall i :: 0 <= i < |Split(sentence)| ==> Sliceable(Split(sentence)[i])
    ensures r.Success? ==> |r.value| == |sentence|
    ensures r.Success? ==>
              var before := Split(sentence);
              var after := Split(r.value);
              && |after| == |before|
              && forall i :: 0 <= i < |before| ==>
                   && |after[i]| == |before[i]| > 0
                   && after[i][0] == AsciiUpper(before[i][0])
                   && after[i][1..] == before[i][1..]
  {
    var words := Split(sentence);
    match CapitalizeWords(words)
    case Failure(e) => Failure(e)
    case Success(capitalized) =>
      CapitalizedJoin(words, capitalized);
      JoinSplit(sentence);
      Success(Join(capitalized))
  }

  /** The join of the capitalised words splits back into them and is as long
      as the sentence. */
  lemma CapitalizedJoin(words: seq<string>, capitalized: seq<string>)
    requires |words| > 0 && forall i :: 0 <= i < |words| ==> ' ' !in words[i]
    requires |capitalized| == |words|
    requires forall i :: 0 <= i < |words| ==> Sliceable(words[i]) && capitalized[i] == CapitalizeWord(words[i])
    ensures Split(Join(capitalized)) == capitalized
    ensures |Join(capitalized)| == |Join(words)|
  {
    forall i | 0 <= i < |capitalized|
      ensures ' ' !in capitalized[i]
    {
      assert capitalized[i] == [AsciiUpper(words[i][0])] + words[i][1..];
      assert words[i] == [words[i][0]] + words[i][1..];
    }
    SplitJoin(capitalized);
    JoinLength(words, capitalized);
  }

  /** Joins of words of equal lengths have equal lengths. */
  lemma {:induction false} JoinLength(a: seq<string>, b: seq<string>)
    requires |a| == |b| > 0
    requires forall i :: 0 <= i < |a| ==> |a[i]| == |b[i]|
    ensures |Join(a)| == |Join(b)|
    decreases |a|
  {
    if |a| > 1 {
      JoinLength(a[1..], b[1..]);
    }
  }

  /** Uppercasing an uppercased first character changes nothing. */
  lemma UpperTwice(c: char)
    requires IsAscii(c)
    ensures AsciiUpper(AsciiUpper(c)) == AsciiUpper(c)
  {
  }

  /** Capitalising twice is capitalising once. */
  lemma CapitalizeIdempotent(sentence: string)
    requires CapitalizeEveryWord(sentence).Success?
    ensures CapitalizeEveryWord(CapitalizeEveryWord(sentence).value) == CapitalizeEveryWord(sentence)
  {
    var once := CapitalizeEveryWord(sentence).value;
    var words := Split(sentence);
    var capitalized := CapitalizeWords(words).value;
    CapitalizedJoin(words, capitalized);
    assert Split(once) == capitalized;
    forall i | 0 <= i < |capitalized|
      ensures Sliceable(capitalized[i]) && CapitalizeWord(capitalized[i]) == capitalized[i]
    {
      UpperTwice(words[i][0]);
      assert CapitalizeWord(capitalized[i]) == [AsciiUpper(capitalized[i][0])] + capitalized[i][1..];
      assert capitalized[i] == [capitalized[i][0]] + capitalized[i][1..];
    }
    assert CapitalizeWords(capitalized).value == capitalized;
  }

  // ---------------------------------------------------------------------------
  // The CSV post-processing of data_frame_to_csv_string
  // ---------------------------------------------------------------------------

  /** `\d`, for the digits a number is written with. */
  predicate IsDigit(c: char)
  {
    '0' <= c <= '9'
  }

  /** A field separator or a line end: `[\,\n]`. */
  predicate IsBreak(c: char)
  {
    c == ',' || c == '\n'
  }

  /** A number with one decimal ends at position `i`: `\.\d[\,\n]` matches there. */
  predicate ShortDecimalAt(s: string, i: int)
    requires 0 <= i && i + 3 <= |s|
  {
    s[i] == '.' && IsDigit(s[i + 1]) && IsBreak(s[i + 2])
  }

  /** No number of the text has a single decimal. */
  predicate NoShortDecimal(s: string)
  {
    forall i :: 0 <= i && i + 3 <= |s| ==> !ShortDecimalAt(s, i)
  }

  /** `replace_all` of `(\.\d)([\,\n])` by `${1}0${2}`: a left-to-right scan
      that writes a `0` between the digit and the break of each match and
      resumes after the match. */
  function PadDecimals(s: string): (r: string)
    decreases |s|
  {
    if |s| < 3 then s
    else if ShortDecimalAt(s, 0) then s[..2] + "0" + [s[2]] + PadDecimals(s[3..])
    else [s[0]] + PadDecimals(s[1..])
  }

  /** The first character is kept, and a short decimal never starts the result
      unless it starts the text, so no match straddles what came before. */
  lemma {:induction false} PadDecimalsHead(s: string)
    ensures |PadDecimals(s)| >= |s|
    ensures |s| > 0 ==> PadDecimals(s)[0] == s[0]
    ensures |s| > 1 ==> PadDecimals(s)[1] == s[1]
    ensures |s| >= 3 && !ShortDecimalAt(s, 0) ==> |PadDecimals(s)| >= 3 && !ShortDecimalAt(PadDecimals(s), 0)
    decreases |s|
  {
    if |s| >= 3 && !ShortDecimalAt(s, 0) {
      PadDecimalsHead(s[1..]);
      var r := PadDecimals(s);
      var t := PadDecimals(s[1..]);
      assert r == [s[0]] + t;
      if |s| == 3 {
        assert t == s[1..];
      }
      assert r[1] == s[1];
      assert r[2] == s[2] by {
        if |s[1..]| >= 3 && ShortDecimalAt(s[1..], 0) {
          assert t == s[1..][..2] + "0" + [s[1..][2]] + PadDecimals(s[1..][3..]);
        } else if |s[1..]| >= 3 {
          PadDecimalsHead(s[1..][1..]);
        }
      }
    } else if |s| >= 3 {
      PadDecimalsHead(s[3..]);
    }
  }

  /** After padding no number has a single decimal. */
  lemma {:induction false} PadDecimalsComplete(s: string)
    ensures NoShortDecimal(PadDecimals(s))
    decreases |s|
  {
    var r := PadDecimals(s);
    if |s| >= 3 {
      if ShortDecimalAt(s, 0) {
        var tail := PadDecimals(s[3..]);
        PadDecimalsComplete(s[3..]);
        assert r == [s[0], s[1], '0', s[2]] + tail;
        NoShortAfterPadding(s[0], s[1], s[2], tail);
      } else {
        var tail := PadDecimals(s[1..]);
        PadDecimalsComplete(s[1..]);
        PadDecimalsHead(s);
        assert r == [s[0]] + tail;
        NoShortAfterChar(s[0], tail);
      }
    }
  }

  /** A padded match in front of a text without short decimals adds none. */
  lemma NoShortAfterPadding(dot: char, digit: char, brk: char, tail: string)
    requires IsDigit(digit) && IsBreak(brk) && NoShortDecimal(tail)
    ensures NoShortDecimal([dot, digit, '0', brk] + tail)
  {
    var r := [dot, digit, '0', brk] + tail;
    forall i | 0 <= i && i + 3 <= |r|
      ensures !ShortDecimalAt(r, i)
    {
      if i >= 4 {
        assert r[i..i + 3] == tail[i - 4..i - 1];
        assert !ShortDecimalAt(tail, i - 4);
      } else if i == 3 {
        assert r[3] == brk;
      }
    }
  }

  /** A character in front of a text without short decimals adds none,
      unless it starts one. */
  lemma NoShortAfterChar(c: char, tail: string)
    requires NoShortDecimal(tail)
    requires |tail| >= 2 ==> !ShortDecimalAt([c] + tail, 0)
    ensures NoShortDecimal([c] + tail)
  {
    var r := [c] + tail;
    forall i | 0 <= i && i + 3 <= |r|
      ensures !ShortDecimalAt(r, i)
    {
      if i >= 1 {
        assert r[i] == tail[i - 1] && r[i + 1] == tail[i] && r[i + 2] == tail[i + 1];
        assert !ShortDecimalAt(tail, i - 1);
      }
    }
  }

  /** A text without one-decimal numbers is left as it is. */
  lemma {:induction false} PadDecimalsFixpoint(s: string)
    requires NoShortDecimal(s)
    ensures PadDecimals(s) == s
    decreases |s|
  {
    if |s| >= 3 {
      assert !ShortDecimalAt(s, 0);
      assert NoShortDecimal(s[1..]) by {
        forall i | 0 <= i && i + 3 <= |s[1..]|
          ensures !ShortDecimalAt(s[1..], i)
        {
          assert !ShortDecimalAt(s, i + 1);
          assert s[1..][i..i + 3] == s[i + 1..i + 4];
        }
      }
      PadDecimalsFixpoint(s[1..]);
      assert s == [s[0]] + s[1..];
    }
  }

  /** Padding twice is padding once. */
  lemma PadDecimalsIdempotent(s: string)
    ensures PadDecimals(PadDecimals(s)) == PadDecimals(s)
  {
    PadDecimalsComplete(s);
    PadDecimalsFixpoint(PadDecimals(s));
  }

  /** A field of the text: no separator or line end inside. */
  predicate NoBreak(f: string)
  {
    forall i :: 0 <= i < |f| ==> !IsBreak(f[i])
  }

  /** The field ends in a point and one digit. */
  predicate EndsWithShortDecimal(f: string)
  {
    |f| >= 2 && f[|f| - 2] == '.' && IsDigit(f[|f| - 1])
  }

  /** Padding works field by field: a field followed by a separator or a line
      end gets a `0` appended exactly when it ends in a point and one digit,
      is otherwise kept as it is, and the rest of the text is padded on its own. */
  lemma {:induction false} PadDecimalsField(f: string, b: char, t: string)
    requires NoBreak(f) && IsBreak(b)
    ensures PadDecimals(f + [b] + t) ==
      f + (if EndsWithShortDecimal(f) then "0" else "") + [b] + PadDecimals(t)
    decreases |f|
  {
    var s := f + [b] + t;
    if |f| == 0 {
      assert s == [b] + t;
      PadDecimalsKeepsHead(s);
      assert s[1..] == t;
    } else if |f| == 2 && EndsWithShortDecimal(f) {
      assert ShortDecimalAt(s, 0);
      assert s[..2] == f && s[2] == b && s[3..] == t;
    } else {
      var g := f[1..];
      assert NoBreak(g);
      assert s[1..] == g + [b] + t;
      assert EndsWithShortDecimal(g) == EndsWithShortDecimal(f) by {
        if |f| >= 3 {
          assert g[|g| - 2] == f[|f| - 2] && g[|g| - 1] == f[|f| - 1];
        }
      }
      assert |s| >= 3 ==> !ShortDecimalAt(s, 0) by {
        if |f| >= 3 {
          assert s[2] == f[2];
        } else if |f| == 2 {
          assert s[1] == f[1];
        } else {
          assert s[1] == b;
        }
      }
      PadDecimalsKeepsHead(s);
      PadDecimalsField(g, b, t);
      assert f == [f[0]] + g;
    }
  }

  /** A text that does not start with a match keeps its first character and
      is padded from the second on. */
  lemma PadDecimalsKeepsHead(s: string)
    requires |s| > 0 && (|s| >= 3 ==> !ShortDecimalAt(s, 0))
    ensures PadDecimals(s) == [s[0]] + PadDecimals(s[1..])
  {
    if |s| < 3 {
      assert s == [s[0]] + s[1..];
    }
  }

  /** The last field, with no separator or line end after it, is kept as it is. */
  lemma PadDecimalsLastField(f: string)
    requires NoBreak(f)
    ensures PadDecimals(f) == f
  {
    assert NoShortDecimal(f) by {
      forall i | 0 <= i && i + 3 <= |f|
        ensures !ShortDecimalAt(f, i)
      {
        assert !IsBreak(f[i + 2]);
      }
    }
    PadDecimalsFixpoint(f);
  }

  /** `trim_end_matches("\n")`: every trailing newline removed. */
  function TrimNewlines(s: string): (r: string)
    ensures |r| <= |s| && r == s[..|r|]
    ensures |r| == 0 || r[|r| - 1] != '\n'
    ensures forall i :: |r| <= i < |s| ==> s[i] == '\n'
  {
    if |s| == 0 || s[|s| - 1] != '\n' then s
    else TrimNewlines(s[..|s| - 1])
  }

  /** Newlines appended to a text are trimmed away again. */
  lemma {:induction false} TrimAppendedNewlines(s: string, n: nat)
    ensures TrimNewlines(s + seq(n, _ => '\n')) == TrimNewlines(s)
    decreases n
  {
    if n > 0 {
      var t := s + seq(n, _ => '\n');
      assert t[..|t| - 1] == s + seq(n - 1, _ => '\n');
      TrimAppendedNewlines(s, n - 1);
    } else {
      assert s + seq(n, _ => '\n') == s;
    }
  }

  /** The text after `data_frame_to_csv_string`'s regex and trim: the padded
      text without its trailing newlines, so no one-decimal number is left
      and no newline ends it. */
  function CsvPostProcess(csv: string): (r: string)
    ensures NoShortDecimal(r)
    ensures |r| == 0 || r[|r| - 1] != '\n'
    ensures |r| <= |PadDecimals(csv)| && r == PadDecimals(csv)[..|r|]
    ensures forall i :: |r| <= i < |PadDecimals(csv)| ==> PadDecimals(csv)[i] == '\n'
  {
    PadDecimalsComplete(csv);
    var padded := PadDecimals(csv);
    var r := TrimNewlines(padded);
    NoShortDecimalPrefix(padded, |r|);
    r
  }

  /** A prefix of a text without one-decimal numbers has none either. */
  lemma NoShortDecimalPrefix(s: string, n: nat)
    requires NoShortDecimal(s) && n <= |s|
    ensures NoShortDecimal(s[..n])
  {
    forall i | 0 <= i && i + 3 <= n
      ensures !ShortDecimalAt(s[..n], i)
    {
      assert !ShortDecimalAt(s, i);
      assert s[..n][i] == s[i] && s[..n][i + 1] == s[i + 1] && s[..n][i + 2] == s[i + 2];
    }
  }
}
