/**
  Turning fetched text into lines, as the `SplitNewLines` extension of the
  name generator does: every carriage return is replaced by `default(char)`
  (the NUL character, so it is not removed) and the result is split on line
  feeds with `string.Split(char)`, which never returns an empty array.
 */
module Lines {

  /** Carriage return, `Convert.ToChar(13)`. */
  const CR: char := '\r'
  /** Line feed, `Convert.ToChar(10)`: the delimiter of the split. */
  const LF: char := '\n'
  /** `default(char)`: the character every carriage return is replaced by. */
  const NUL: char := '\0'

  /** Number of occurrences of `c` in `s`. */
  function Occurrences(s: string, c: char): (n: nat)
  {
    if s == [] then 0 else (if s[0] == c then 1 else 0) + Occurrences(s[1..], c)
  }

  lemma {:induction false} OccurrencesAppend(a: string, b: string, c: char)
    ensures Occurrences(a + b, c) == Occurrences(a, c) + Occurrences(b, c)
  {
    if a != [] {
      assert (a + b)[1..] == a[1..] + b;
      OccurrencesAppend(a[1..], b, c);
    } else {
      assert a + b == b;
    }
  }

  lemma {:induction false} OccurrencesAbsent(s: string, c: char)
    ensures c !in s <==> Occurrences(s, c) == 0
  {
    if s != [] {
      OccurrencesAbsent(s[1..], c);
      assert s == [s[0]] + s[1..];
    }
  }

  /** `string.Replace(char, char)`: every `from` becomes `to`, nothing else moves. */
  function Replace(s: string, from: char, to: char): (r: string)
    ensures |r| == |s|
    ensures forall i :: 0 <= i < |s| ==> r[i] == if s[i] == from then to else s[i]
  {
    if s == [] then [] else [if s[0] == from then to else s[0]] + Replace(s[1..], from, to)
  }

  /** Replacing `from` leaves the count of every third character alone. */
  lemma {:induction false} ReplaceKeepsOthers(s: string, from: char, to: char, c: char)
    requires c != from && c != to
    ensures Occurrences(Replace(s, from, to), c) == Occurrences(s, c)
  {
    if s != [] {
      var r := Replace(s, from, to);
      assert r[1..] == Replace(s[1..], from, to);
      ReplaceKeepsOthers(s[1..], from, to, c);
    }
  }

  /** Replacing a character that does not occur changes nothing. */
  lemma ReplaceAbsent(s: string, from: char, to: char)
    requires from !in s
    ensures Replace(s, from, to) == s
  {
  }

  /**
    `string.Split(char)`: the pieces between consecutive delimiters, in
    order, empty pieces included; text without a delimiter is one piece.
   */
  function Split(s: string, sep: char): (r: seq<string>)
    ensures |r| == Occurrences(s, sep) + 1
    ensures forall k :: 0 <= k < |r| ==> sep !in r[k]
  {
    if s == [] then [""]
    else
      var rest := Split(s[1..], sep);
      if s[0] == sep then [""] + rest
      else [[s[0]] + rest[0]] + rest[1..]
  }

  /** `string.Join(char, ...)`: the pieces with one delimiter between neighbours. */
  function Join(parts: seq<string>, sep: char): (s: string)
  {
    if |parts| == 0 then ""
    else if |parts| == 1 then parts[0]
    else parts[0] + [sep] + Join(parts[1..], sep)
  }

  lemma JoinCons(p: string, rest: seq<string>, sep: char)
    requires |rest| > 0
    ensures Join([p] + rest, sep) == p + [sep] + Join(rest, sep)
  {
  }

  /** Joining the pieces of a split gives back the text that was split. */
  lemma {:induction false} JoinOfSplit(s: string, sep: char)
    ensures Join(Split(s, sep), sep) == s
  {
    if s != [] {
      var rest := Split(s[1..], sep);
      JoinOfSplit(s[1..], sep);
      if s[0] == sep {
        JoinCons("", rest, sep);
        assert s == [sep] + s[1..];
      } else if |rest| == 1 {
        assert s == [s[0]] + s[1..];
      } else {
        var head := [s[0]] + rest[0];
        JoinCons(head, rest[1..], sep);
        assert rest == [rest[0]] + rest[1..];
        JoinCons(rest[0], rest[1..], sep);
        assert s == [s[0]] + s[1..];
      }
    }
  }

  /** A leading piece without a delimiter sticks to the first piece of the rest. */
  lemma {:induction false} SplitAfterPiece(p: string, t: string, sep: char)
    requires sep !in p
    ensures Split(p + t, sep) == [p + Split(t, sep)[0]] + Split(t, sep)[1..]
  {
    var rest := Split(t, sep);
    if p == [] {
      assert p + t == t && p + rest[0] == rest[0];
      assert rest == [rest[0]] + rest[1..];
    } else {
      assert (p + t)[0] == p[0] && (p + t)[1..] == p[1..] + t;
      SplitAfterPiece(p[1..], t, sep);
      var inner := Split(p[1..] + t, sep);
      assert inner[0] == p[1..] + rest[0] && inner[1..] == rest[1..];
      assert [p[0]] + (p[1..] + rest[0]) == p + rest[0];
    }
  }

  /** Splitting joined pieces that hold no delimiter gives back the pieces. */
  lemma {:induction false} SplitOfJoin(parts: seq<string>, sep: char)
    requires |parts| > 0
    requires forall k :: 0 <= k < |parts| ==> sep !in parts[k]
    ensures Split(Join(parts, sep), sep) == parts
  {
    if |parts| == 1 {
      SplitAfterPiece(parts[0], "", sep);
      assert parts[0] + "" == parts[0];
    } else {
      var tail := Join(parts[1..], sep);
      assert Join(parts, sep) == parts[0] + [sep] + tail;
      SplitOfJoin(parts[1..], sep);
      assert parts[0] + [sep] + tail == parts[0] + ([sep] + tail);
      SplitAfterPiece(parts[0], [sep] + tail, sep);
      assert ([sep] + tail)[0] == sep && ([sep] + tail)[1..] == tail;
      var after := Split([sep] + tail, sep);
      assert after == [""] + parts[1..];
      assert after[0] == "" && after[1..] == parts[1..];
      assert parts[0] + "" == parts[0];
      assert parts == [parts[0]] + parts[1..];
    }
  }

  /** A character absent from the text is absent from every piece. */
  lemma {:induction false} SplitKeepsAbsent(s: string, sep: char, c: char)
    requires c !in s
    ensures forall k :: 0 <= k < |Split(s, sep)| ==> c !in Split(s, sep)[k]
  {
    if s != [] {
      assert s == [s[0]] + s[1..];
      SplitKeepsAbsent(s[1..], sep, c);
    }
  }

  /** A character absent from every piece and from the delimiter is absent from the join. */
  lemma {:induction false} JoinKeepsAbsent(parts: seq<string>, sep: char, c: char)
    requires c != sep
    requires forall k :: 0 <= k < |parts| ==> c !in parts[k]
    ensures c !in Join(parts, sep)
  {
    if |parts| > 1 {
      JoinKeepsAbsent(parts[1..], sep, c);
    }
  }

  /**
    `SplitNewLines`: the lines of `text`, each carriage return replaced by
    NUL. There is one line more than there are line feeds, so the result is
    never empty; no line holds a line feed or a carriage return; and joining
    the lines with line feeds gives back the text with CR replaced by NUL.
   */
  function SplitNewLines(text: string): (lines: seq<string>)
    ensures |lines| == Occurrences(text, LF) + 1
    ensures forall k :: 0 <= k < |lines| ==> LF !in lines[k] && CR !in lines[k]
    ensures Join(lines, LF) == Replace(text, CR, NUL)
  {
    var cleaned := Replace(text, CR, NUL);
    ReplaceKeepsOthers(text, CR, NUL, LF);
    JoinOfSplit(cleaned, LF);
    SplitKeepsAbsent(cleaned, LF, CR);
    Split(cleaned, LF)
  }

  /** Lines free of CR and LF survive a join with LF and a fresh split unchanged. */
  lemma SplitNewLinesOfJoin(lines: seq<string>)
    requires |lines| > 0
    requires forall k :: 0 <= k < |lines| ==> LF !in lines[k] && CR !in lines[k]
    ensures SplitNewLines(Join(lines, LF)) == lines
  {
    JoinKeepsAbsent(lines, LF, CR);
    ReplaceAbsent(Join(lines, LF), CR, NUL);
    SplitOfJoin(lines, LF);
  }

  /**
    A CRLF line ending does not give the same lines as an LF one: the CR
    stays behind as a NUL at the end of the line.
   */
  lemma CarriageReturnBecomesNul()
    ensures SplitNewLines("A\r\nB") == ["A\0", "B"]
    ensures SplitNewLines("A\r\nB") != SplitNewLines("A\nB")
  {
    var crlf, lf := "A\r\nB", "A\nB";
    var cleaned := Replace(crlf, CR, NUL);
    assert cleaned == "A\0\nB" by {
      assert cleaned[0] == 'A' && cleaned[1] == NUL && cleaned[2] == LF && cleaned[3] == 'B';
    }
    assert Join(["A\0", "B"], LF) == cleaned;
    SplitOfJoin(["A\0", "B"], LF);
    ReplaceAbsent(lf, CR, NUL);
    assert Join(["A", "B"], LF) == lf;
    SplitOfJoin(["A", "B"], LF);
  }
}
