/** The text form of an hstore: what get_val and parse_hstore read, what hstore_out prints, and that reading what was
    printed gives the pairs back. */
module HstoreText {
  import opened Lex
  import opened HstorePairs

  const QUOTE: byte := 34
  const BACKSLASH: byte := 92
  const EQUALS: byte := 61
  const GREATER: byte := 62
  const COMMA: byte := 44
  const SPACE: byte := 32

  /** The longest key or value. */
  const HSTORE_MAX_LEN: nat := 0x3fff_ffff

  /** The byte the pointer is at; 0 at the end of the string. */
  function Head(s: Bytes): byte { if s == [] then 0 else s[0] }

  /** isspace in the C locale. */
  predicate IsSpace(c: byte) { c == SPACE || 9 <= c <= 13 }

  // ---- Reading one word ----

  datatype VState = WAITVAL | INVAL | INESCVAL | WAITESCIN | WAITESCESCIN

  /** A word, the text behind it, and whether it was quoted; or that there is none; or an error. */
  datatype Got = GotWord(word: Bytes, rest: Bytes, escaped: bool) | NoMore | Bad

  /** get_val, from a state in its middle. */
  function GetVal(s: Bytes, st: VState, word: Bytes, escaped: bool, ignoreeq: bool): (r: Got)
    ensures r.GotWord? ==> |r.rest| <= |s| && (st == WAITVAL ==> |r.rest| < |s|)
  {
    var c := Head(s);
    match st
    case WAITVAL =>
      if c == 0 then NoMore
      else if c == QUOTE then GetVal(s[1..], INESCVAL, word, true, ignoreeq)
      else if c == EQUALS && !ignoreeq then Bad
      else if c == BACKSLASH then GetVal(s[1..], WAITESCIN, word, escaped, ignoreeq)
      else if !IsSpace(c) then GetVal(s[1..], INVAL, word + [c], escaped, ignoreeq)
      else GetVal(s[1..], WAITVAL, word, escaped, ignoreeq)
    case INVAL =>
      if c == 0 then GotWord(word, s, escaped)
      else if c == BACKSLASH then GetVal(s[1..], WAITESCIN, word, escaped, ignoreeq)
      else if c == EQUALS && !ignoreeq then GotWord(word, s, escaped)
      else if c == COMMA && ignoreeq then GotWord(word, s, escaped)
      else if IsSpace(c) then GotWord(word, s[1..], escaped)
      else GetVal(s[1..], INVAL, word + [c], escaped, ignoreeq)
    case INESCVAL =>
      if c == 0 then Bad
      else if c == BACKSLASH then GetVal(s[1..], WAITESCESCIN, word, escaped, ignoreeq)
      else if c == QUOTE then GotWord(word, s[1..], escaped)
      else GetVal(s[1..], INESCVAL, word + [c], escaped, ignoreeq)
    case WAITESCIN =>
      if c == 0 then Bad else GetVal(s[1..], INVAL, word + [c], escaped, ignoreeq)
    case WAITESCESCIN =>
      if c == 0 then Bad else GetVal(s[1..], INESCVAL, word + [c], escaped, ignoreeq)
  }

  // ---- Reading pairs ----

  datatype PState = WKEY | WVAL | WEQ | WGT | WDEL

  /** Pairs: a pair as read, the value being there even if it is null. */
  datatype Pairs = Pairs(key: Bytes, val: Bytes, isnull: bool, needfree: bool)

  datatype Parsed = Ok(pairs: seq<Pairs>) | SyntaxError | TooLong

  function Lower(c: byte): byte { if 65 <= c <= 90 then c + 32 else c }

  /** pg_strcasecmp(word, "null") == 0. */
  predicate IsNullWord(w: Bytes) {
    |w| == 4 && Lower(w[0]) == 110 && Lower(w[1]) == 117 && Lower(w[2]) == 108 && Lower(w[3]) == 108
  }

  /** parse_hstore, from a state in its middle, with the pairs so far and the key last read. */
  function Parse(s: Bytes, st: PState, pairs: seq<Pairs>, key: Bytes): Parsed
    decreases |s|
  {
    var c := Head(s);
    match st
    case WKEY =>
      (match GetVal(s, WAITVAL, [], false, false)
       case NoMore => Ok(pairs)
       case Bad => SyntaxError
       case GotWord(w, rest, _) => if |w| > HSTORE_MAX_LEN then TooLong else Parse(rest, WEQ, pairs, w))
    case WEQ =>
      if c == 0 then SyntaxError
      else if c == EQUALS then Parse(s[1..], WGT, pairs, key)
      else if !IsSpace(c) then SyntaxError
      else Parse(s[1..], WEQ, pairs, key)
    case WGT =>
      if c == GREATER then Parse(s[1..], WVAL, pairs, key) else SyntaxError
    case WVAL =>
      (match GetVal(s, WAITVAL, [], false, true)
       case NoMore => SyntaxError
       case Bad => SyntaxError
       case GotWord(w, rest, escaped) =>
         if |w| > HSTORE_MAX_LEN then TooLong
         else Parse(rest, WDEL, pairs + [Pairs(key, w, !escaped && IsNullWord(w), true)], []))
    case WDEL =>
      if c == 0 then Ok(pairs)
      else if c == COMMA then Parse(s[1..], WKEY, pairs, [])
      else if !IsSpace(c) then SyntaxError
      else Parse(s[1..], WDEL, pairs, key)
  }

  // ---- Printing ----

  /** cpw. */
  function Escape(s: Bytes): Bytes {
    if s == [] then []
    else (if s[0] == QUOTE || s[0] == BACKSLASH then [BACKSLASH, s[0]] else [s[0]]) + Escape(s[1..])
  }

  const NULL_WORD: Bytes := [78, 85, 76, 76]

  function PrintValue(v: Value): Bytes {
    if v.Null? then NULL_WORD else [QUOTE] + (Escape(v.bytes) + [QUOTE])
  }

  function PrintPair(p: Pair): Bytes {
    [QUOTE] + (Escape(p.key) + ([QUOTE, EQUALS, GREATER] + PrintValue(p.val)))
  }

  /** hstore_out, without the terminator. */
  function Print(ps: seq<Pair>): Bytes {
    if ps == [] then []
    else PrintPair(ps[0]) + if |ps| == 1 then [] else [COMMA, SPACE] + Print(ps[1..])
  }

  // ---- The round trip ----

  predicate NulFree(s: Bytes) { forall i :: 0 <= i < |s| ==> s[i] != 0 }

  /** Text values as the input function can have read them. */
  predicate Printable(p: Pair) {
    && NulFree(p.key) && |p.key| <= HSTORE_MAX_LEN
    && (p.val.Text? ==> NulFree(p.val.bytes) && |p.val.bytes| <= HSTORE_MAX_LEN)
  }

  lemma ReadByte(c: byte, rest: Bytes, word: Bytes, ignoreeq: bool)
    requires c != 0
    ensures GetVal((if c == QUOTE || c == BACKSLASH then [BACKSLASH, c] else [c]) + rest, INESCVAL, word, true,
                   ignoreeq)
            == GetVal(rest, INESCVAL, word + [c], true, ignoreeq)
  {
    if c == QUOTE || c == BACKSLASH {
      var s := [BACKSLASH, c] + rest;
      assert s[1..] == [c] + rest && ([c] + rest)[1..] == rest;
    } else {
      assert ([c] + rest)[1..] == rest;
    }
  }

  /** A quoted word is read back, whatever is in it. */
  lemma {:induction false} ReadQuoted(bs: Bytes, rest: Bytes, word: Bytes, ignoreeq: bool)
    requires NulFree(bs)
    ensures GetVal(Escape(bs) + ([QUOTE] + rest), INESCVAL, word, true, ignoreeq) == GotWord(word + bs, rest, true)
  {
    hide GetVal;
    if bs == [] {
      ReadQuote(rest, word, ignoreeq);
      assert [] + ([QUOTE] + rest) == [QUOTE] + rest && word + bs == word;
    } else {
      var first := if bs[0] == QUOTE || bs[0] == BACKSLASH then [BACKSLASH, bs[0]] else [bs[0]];
      var behind := Escape(bs[1..]) + ([QUOTE] + rest);
      ReadQuoted(bs[1..], rest, word + [bs[0]], ignoreeq);
      ReadByte(bs[0], behind, word, ignoreeq);
      assert Escape(bs) + ([QUOTE] + rest) == first + behind;
      assert word + [bs[0]] + bs[1..] == word + bs;
    }
  }

  lemma ReadQuote(rest: Bytes, word: Bytes, ignoreeq: bool)
    ensures GetVal([QUOTE] + rest, INESCVAL, word, true, ignoreeq) == GotWord(word, rest, true)
    ensures GetVal([QUOTE] + rest, WAITVAL, word, false, ignoreeq) == GetVal(rest, INESCVAL, word, true, ignoreeq)
  {
    assert ([QUOTE] + rest)[1..] == rest;
  }

  /** The whole quoted word, after an optional space. */
  lemma ReadWord(bs: Bytes, rest: Bytes, ignoreeq: bool)
    requires NulFree(bs)
    ensures GetVal([QUOTE] + (Escape(bs) + ([QUOTE] + rest)), WAITVAL, [], false, ignoreeq) == GotWord(bs, rest, true)
  {
    hide GetVal, Escape;
    ReadQuote(Escape(bs) + ([QUOTE] + rest), [], ignoreeq);
    ReadQuoted(bs, rest, [], ignoreeq);
    assert [] + bs == bs;
  }

  /** The unquoted word NULL, at the end or before a comma. */
  lemma ReadNull(rest: Bytes)
    requires Head(rest) == 0 || Head(rest) == COMMA
    ensures GetVal(NULL_WORD + rest, WAITVAL, [], false, true) == GotWord(NULL_WORD, rest, false)
  {
    var s0 := NULL_WORD + rest;
    var s1, s2, s3 := [85, 76, 76] + rest, [76, 76] + rest, [76] + rest;
    assert s0[1..] == s1 && s1[1..] == s2 && s2[1..] == s3 && s3[1..] == rest;
    assert GetVal(rest, INVAL, [78, 85, 76, 76], false, true) == GotWord([78, 85, 76, 76], rest, false);
    assert GetVal(s3, INVAL, [78, 85, 76], false, true) == GetVal(rest, INVAL, [78, 85, 76] + [76], false, true);
    assert GetVal(s2, INVAL, [78, 85], false, true) == GetVal(s3, INVAL, [78, 85] + [76], false, true);
    assert GetVal(s1, INVAL, [78], false, true) == GetVal(s2, INVAL, [78] + [85], false, true);
    assert GetVal(s0, WAITVAL, [], false, true) == GetVal(s1, INVAL, [] + [78], false, true);
    assert [78, 85, 76] + [76] == [78, 85, 76, 76] && [78, 85] + [76] == [78, 85, 76] && [78] + [85] == [78, 85]
           && [] + [78] == [78];
  }

  /** A printed value is read back: a null as a null, the quoted string "null" as a string. */
  lemma ReadValue(v: Value, rest: Bytes)
    requires v.Text? ==> NulFree(v.bytes)
    requires Head(rest) == 0 || Head(rest) == COMMA
    ensures GetVal(PrintValue(v) + rest, WAITVAL, [], false, true)
            == if v.Null? then GotWord(NULL_WORD, rest, false) else GotWord(v.bytes, rest, true)
  {
    hide GetVal, Escape;
    if v.Null? {
      ReadNull(rest);
    } else {
      ReadWord(v.bytes, rest, true);
      assert PrintValue(v) + rest == [QUOTE] + (Escape(v.bytes) + ([QUOTE] + rest));
    }
  }

  /** The pair as the parser records it. */
  function Recorded(p: Pair): Pairs {
    Pairs(p.key, if p.val.Null? then NULL_WORD else p.val.bytes, p.val.Null?, true)
  }

  lemma ReadArrow(rest: Bytes, pairs: seq<Pairs>, key: Bytes)
    ensures Parse([EQUALS, GREATER] + rest, WEQ, pairs, key) == Parse(rest, WVAL, pairs, key)
  {
    var s := [EQUALS, GREATER] + rest;
    assert s[1..] == [GREATER] + rest && ([GREATER] + rest)[1..] == rest;
    hide GetVal;
  }

  lemma ReadKey(key: Bytes, rest: Bytes, pairs: seq<Pairs>, k: Bytes)
    requires NulFree(key) && |key| <= HSTORE_MAX_LEN
    ensures Parse([QUOTE] + (Escape(key) + ([QUOTE] + rest)), WKEY, pairs, k) == Parse(rest, WEQ, pairs, key)
  {
    hide GetVal, Escape;
    ReadWord(key, rest, false);
  }

  lemma ReadVal(v: Value, rest: Bytes, pairs: seq<Pairs>, key: Bytes)
    requires v.Text? ==> NulFree(v.bytes) && |v.bytes| <= HSTORE_MAX_LEN
    requires Head(rest) == 0 || Head(rest) == COMMA
    ensures Parse(PrintValue(v) + rest, WVAL, pairs, key) == Parse(rest, WDEL, pairs + [Recorded(Pair(key, v))], [])
  {
    hide GetVal, PrintValue;
    ReadValue(v, rest);
    assert IsNullWord(NULL_WORD);
  }

  lemma {:induction false} ReadPrintedPair(p: Pair, rest: Bytes, pairs: seq<Pairs>, k: Bytes)
    requires Printable(p) && (Head(rest) == 0 || Head(rest) == COMMA)
    ensures Parse(PrintPair(p) + rest, WKEY, pairs, k) == Parse(rest, WDEL, pairs + [Recorded(p)], [])
  {
    hide Parse, Escape, PrintValue, NulFree;
    var tail := PrintValue(p.val) + rest;
    ReadKey(p.key, [EQUALS, GREATER] + tail, pairs, k);
    ReadArrow(tail, pairs, p.key);
    ReadVal(p.val, rest, pairs, p.key);
    PrintedPair(p, rest);
  }

  lemma PrintedPair(p: Pair, rest: Bytes)
    ensures PrintPair(p) + rest
            == [QUOTE] + (Escape(p.key) + ([QUOTE] + ([EQUALS, GREATER] + (PrintValue(p.val) + rest))))
  {
    hide Escape, PrintValue;
    var a, b := Escape(p.key), PrintValue(p.val);
    assert [QUOTE, EQUALS, GREATER] + b + rest == [QUOTE] + ([EQUALS, GREATER] + (b + rest));
    assert a + ([QUOTE, EQUALS, GREATER] + b) + rest == a + ([QUOTE, EQUALS, GREATER] + b + rest);
    assert [QUOTE] + (a + ([QUOTE, EQUALS, GREATER] + b)) + rest
           == [QUOTE] + (a + ([QUOTE, EQUALS, GREATER] + b) + rest);
  }

  lemma ReadComma(rest: Bytes, pairs: seq<Pairs>)
    ensures Parse([COMMA, SPACE] + rest, WDEL, pairs, []) == Parse([SPACE] + rest, WKEY, pairs, [])
  {
    assert ([COMMA, SPACE] + rest)[1..] == [SPACE] + rest;
    hide GetVal;
  }

  lemma SkipSpace(rest: Bytes, pairs: seq<Pairs>)
    ensures Parse([SPACE] + rest, WKEY, pairs, []) == Parse(rest, WKEY, pairs, [])
  {
    assert ([SPACE] + rest)[1..] == rest;
    assert GetVal([SPACE] + rest, WAITVAL, [], false, false) == GetVal(rest, WAITVAL, [], false, false);
    hide GetVal;
  }

  lemma EndOfText(pairs: seq<Pairs>)
    ensures Parse([], WDEL, pairs, []) == Ok(pairs) && Parse([], WKEY, pairs, []) == Ok(pairs)
  {
  }

  function AllRecorded(ps: seq<Pair>): (r: seq<Pairs>)
    ensures |r| == |ps|
  {
    seq(|ps|, i requires 0 <= i < |ps| => Recorded(ps[i]))
  }

  /** Reading what was printed records exactly the pairs that were printed, in order. */
  lemma {:induction false} ReadsWhatIsPrinted(ps: seq<Pair>, pairs: seq<Pairs>)
    requires forall i :: 0 <= i < |ps| ==> Printable(ps[i])
    ensures Parse(Print(ps), WKEY, pairs, []) == Ok(pairs + AllRecorded(ps))
  {
    hide Parse, PrintPair, Recorded, Printable;
    if ps == [] {
      EndOfText(pairs);
      assert pairs + AllRecorded(ps) == pairs;
    } else if |ps| == 1 {
      ReadPrintedPair(ps[0], [], pairs, []);
      EndOfText(pairs + [Recorded(ps[0])]);
      assert AllRecorded(ps) == [Recorded(ps[0])];
      assert Print(ps) == PrintPair(ps[0]) + [];
    } else {
      var rest := Print(ps[1..]);
      var pairs' := pairs + [Recorded(ps[0])];
      ReadPrintedPair(ps[0], [COMMA, SPACE] + rest, pairs, []);
      ReadComma(rest, pairs');
      SkipSpace(rest, pairs');
      ReadsWhatIsPrinted(ps[1..], pairs');
      RecordedTail(pairs, ps);
    }
  }

  lemma RecordedTail(pairs: seq<Pairs>, ps: seq<Pair>)
    requires ps != []
    ensures pairs + [Recorded(ps[0])] + AllRecorded(ps[1..]) == pairs + AllRecorded(ps)
  {
    hide Recorded;
    assert AllRecorded(ps) == [Recorded(ps[0])] + AllRecorded(ps[1..]);
  }
}
