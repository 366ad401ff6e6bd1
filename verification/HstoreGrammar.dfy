/** The texts hstore_in reads, as a grammar: words quoted or bare, any character behind a backslash, any spacing. The
    parser accepts exactly these texts and records the pairs they spell. */
module HstoreGrammar {
  import opened Lex
  import opened HstorePairs
  import opened HstoreText

  /** One character of a word: itself, or behind a backslash. */
  datatype Piece = Plain(c: byte) | Escaped(c: byte)

  datatype Word = Quoted(pieces: seq<Piece>) | Bare(pieces: seq<Piece>)

  /** A pair with the spaces before, between and after its parts. */
  datatype Entry = Entry(pre: Bytes, key: Word, mid: Bytes, post: Bytes, val: Word, tail: Bytes)

  /** Pairs with commas between them; a comma at the end is allowed. */
  datatype Spelling = Blank(spaces: Bytes) | Last(entry: Entry) | More(entry: Entry, others: Spelling)

  // ---- What is spelled ----

  function Content(ps: seq<Piece>): (w: Bytes)
    ensures |w| == |ps|
  {
    seq(|ps|, i requires 0 <= i < |ps| => ps[i].c)
  }

  /** A bare null, in any letter case, is null; a quoted one is a string. */
  function Record(e: Entry): Pairs {
    Pairs(Content(e.key.pieces), Content(e.val.pieces), e.val.Bare? && IsNullWord(Content(e.val.pieces)), true)
  }

  /** NULL, each letter upper or lower case. */
  lemma NullWords(w: Bytes)
    ensures IsNullWord(w) <==>
            |w| == 4 && forall i :: 0 <= i < 4 ==> w[i] == NULL_WORD[i] || w[i] == NULL_WORD[i] + 32
  {
    if |w| == 4 && forall i :: 0 <= i < 4 ==> w[i] == NULL_WORD[i] || w[i] == NULL_WORD[i] + 32 {
      assert NULL_WORD[0] == 78 && NULL_WORD[1] == 85 && NULL_WORD[2] == 76 && NULL_WORD[3] == 76;
    }
  }

  function Records(t: Spelling): seq<Pairs> {
    match t
    case Blank(_) => []
    case Last(e) => [Record(e)]
    case More(e, others) => [Record(e)] + Records(others)
  }

  // ---- How it is spelled, in front of some rest ----

  function PutPieces(ps: seq<Piece>, rest: Bytes): Bytes {
    if ps == [] then rest
    else if ps[0].Plain? then [ps[0].c] + PutPieces(ps[1..], rest)
    else [BACKSLASH] + ([ps[0].c] + PutPieces(ps[1..], rest))
  }

  function PutWord(w: Word, rest: Bytes): Bytes {
    if w.Quoted? then [QUOTE] + PutPieces(w.pieces, [QUOTE] + rest) else PutPieces(w.pieces, rest)
  }

  function PutEntry(e: Entry, rest: Bytes): Bytes {
    e.pre + PutWord(e.key, e.mid + ([EQUALS] + ([GREATER] + (e.post + PutWord(e.val, e.tail + rest)))))
  }

  function Put(t: Spelling, rest: Bytes): Bytes {
    match t
    case Blank(spaces) => spaces + rest
    case Last(e) => PutEntry(e, rest)
    case More(e, others) => PutEntry(e, [COMMA] + Put(others, rest))
  }

  // ---- Which spellings there are ----

  predicate Spaces(s: Bytes) { forall i :: 0 <= i < |s| ==> IsSpace(s[i]) }

  /** What ends a bare key, and a bare value. */
  function Stop(value: bool): byte { if value then COMMA else EQUALS }

  /** A character that can stand for itself in a quoted word, and in a bare one; a bare value may begin with a comma. */
  predicate PlainOk(c: byte, quoted: bool, value: bool, first: bool) {
    && c != 0 && c != BACKSLASH
    && (if quoted then c != QUOTE
        else !IsSpace(c) && (first ==> c != QUOTE) && (c == Stop(value) ==> value && first))
  }

  predicate PieceOk(p: Piece, quoted: bool, value: bool, first: bool) {
    if p.Plain? then PlainOk(p.c, quoted, value, first) else p.c != 0
  }

  predicate PiecesOk(ps: seq<Piece>, quoted: bool, value: bool, first: bool) {
    ps != [] ==> PieceOk(ps[0], quoted, value, first) && PiecesOk(ps[1..], quoted, value, false)
  }

  predicate WordOk(w: Word, value: bool) {
    PiecesOk(w.pieces, w.Quoted?, value, true) && (w.Bare? ==> w.pieces != [])
  }

  predicate EntryOk(e: Entry) {
    Spaces(e.pre) && WordOk(e.key, false) && Spaces(e.mid) && Spaces(e.post) && WordOk(e.val, true) && Spaces(e.tail)
  }

  predicate SpellingOk(t: Spelling) {
    match t
    case Blank(spaces) => Spaces(spaces)
    case Last(e) => EntryOk(e)
    case More(e, others) => EntryOk(e) && SpellingOk(others)
  }

  /** No key or value is longer than the limit. */
  predicate EntryShort(e: Entry) {
    |e.key.pieces| <= HSTORE_MAX_LEN && |e.val.pieces| <= HSTORE_MAX_LEN
  }

  predicate Short(t: Spelling) {
    match t
    case Blank(_) => true
    case Last(e) => EntryShort(e)
    case More(e, others) => EntryShort(e) && Short(others)
  }

  // ---- Spelled words are read ----

  lemma Behind(c: byte, rest: Bytes)
    ensures ([c] + rest)[1..] == rest && Head([c] + rest) == c && [c] + rest != []
  {
  }

  lemma SpacesFirst(sp: Bytes, rest: Bytes)
    requires Spaces(sp) && sp != []
    ensures sp + rest == [sp[0]] + (sp[1..] + rest) && Spaces(sp[1..]) && IsSpace(sp[0])
  {
  }

  lemma NoSpaces(rest: Bytes)
    ensures [] + rest == rest
  {
  }

  lemma {:induction false} SkipSpaces(sp: Bytes, rest: Bytes, value: bool)
    requires Spaces(sp)
    ensures GetVal(sp + rest, WAITVAL, [], false, value) == GetVal(rest, WAITVAL, [], false, value)
  {
    hide IsSpace;
    if sp == [] {
      NoSpaces(rest);
    } else {
      SpacesFirst(sp, rest);
      Behind(sp[0], sp[1..] + rest);
      SkipSpaces(sp[1..], rest, value);
      SpaceStep(sp[0], sp[1..] + rest, value);
    }
  }

  lemma SpaceStep(c: byte, rest: Bytes, value: bool)
    requires IsSpace(c)
    ensures GetVal([c] + rest, WAITVAL, [], false, value) == GetVal(rest, WAITVAL, [], false, value)
  {
    Behind(c, rest);
  }

  function Inside(quoted: bool): VState { if quoted then INESCVAL else INVAL }

  /** One character inside a word. */
  lemma PieceStep(p: Piece, rest: Bytes, quoted: bool, word: Bytes, value: bool)
    requires PieceOk(p, quoted, value, false)
    ensures GetVal(PutPieces([p], rest), Inside(quoted), word, quoted, value)
            == GetVal(rest, Inside(quoted), word + [p.c], quoted, value)
  {
    Behind(p.c, rest);
    Behind(BACKSLASH, [p.c] + rest);
    assert [p][1..] == [];
  }

  /** The first of a bare one. */
  lemma FirstStep(p: Piece, rest: Bytes, value: bool)
    requires PieceOk(p, false, value, true)
    ensures GetVal(PutPieces([p], rest), WAITVAL, [], false, value) == GetVal(rest, INVAL, [p.c], false, value)
  {
    Behind(p.c, rest);
    Behind(BACKSLASH, [p.c] + rest);
    assert [p][1..] == [] && [] + [p.c] == [p.c];
  }

  lemma PutFirst(ps: seq<Piece>, rest: Bytes)
    requires ps != []
    ensures PutPieces(ps, rest) == PutPieces([ps[0]], PutPieces(ps[1..], rest))
    ensures Content(ps) == [ps[0].c] + Content(ps[1..])
  {
    assert [ps[0]][1..] == [];
  }

  lemma Append(word: Bytes, c: byte, others: Bytes)
    ensures word + [c] + others == word + ([c] + others)
  {
  }

  lemma {:induction false} ReadPieces(ps: seq<Piece>, rest: Bytes, quoted: bool, word: Bytes, value: bool)
    requires PiecesOk(ps, quoted, value, false)
    ensures GetVal(PutPieces(ps, rest), Inside(quoted), word, quoted, value)
            == GetVal(rest, Inside(quoted), word + Content(ps), quoted, value)
    decreases |ps|
  {
    hide GetVal, PieceOk;
    if ps == [] {
      assert word + Content(ps) == word;
    } else {
      PutFirst(ps, rest);
      PieceStep(ps[0], PutPieces(ps[1..], rest), quoted, word, value);
      ReadPieces(ps[1..], rest, quoted, word + [ps[0].c], value);
      Append(word, ps[0].c, Content(ps[1..]));
    }
  }

  /** What a bare word ends before. */
  predicate Ends(rest: Bytes, value: bool) {
    Head(rest) == 0 || IsSpace(Head(rest)) || Head(rest) == Stop(value)
  }

  /** The text behind a word: the space that ends a bare one is read with it. */
  function Left(w: Word, rest: Bytes): Bytes {
    if w.Bare? && rest != [] && IsSpace(rest[0]) then rest[1..] else rest
  }

  lemma BareEnds(rest: Bytes, word: Bytes, value: bool)
    requires Ends(rest, value)
    ensures GetVal(rest, INVAL, word, false, value)
            == GotWord(word, if rest != [] && IsSpace(rest[0]) then rest[1..] else rest, false)
  {
  }

  /** A spelled word is read as its content, whatever stands for itself and whatever behind a backslash. */
  lemma ReadSpelled(sp: Bytes, w: Word, rest: Bytes, value: bool)
    requires Spaces(sp) && WordOk(w, value) && (w.Bare? ==> Ends(rest, value))
    ensures GetVal(sp + PutWord(w, rest), WAITVAL, [], false, value)
            == GotWord(Content(w.pieces), Left(w, rest), w.Quoted?)
  {
    hide GetVal, PieceOk, PutPieces, Spaces, Ends, IsSpace;
    SkipSpaces(sp, PutWord(w, rest), value);
    var ps := w.pieces;
    if w.Quoted? {
      FirstQuoted(ps, value);
      OpenQuote(PutPieces(ps, [QUOTE] + rest), value);
      ReadPieces(ps, [QUOTE] + rest, true, [], value);
      CloseQuote(rest, Content(ps), value);
    } else {
      PutFirst(ps, rest);
      FirstStep(ps[0], PutPieces(ps[1..], rest), value);
      ReadPieces(ps[1..], rest, false, [ps[0].c], value);
      BareEnds(rest, Content(ps), value);
    }
  }

  lemma FirstQuoted(ps: seq<Piece>, value: bool)
    requires PiecesOk(ps, true, value, true)
    ensures PiecesOk(ps, true, value, false)
  {
  }

  lemma OpenQuote(rest: Bytes, value: bool)
    ensures GetVal([QUOTE] + rest, WAITVAL, [], false, value) == GetVal(rest, INESCVAL, [], true, value)
  {
    Behind(QUOTE, rest);
  }

  lemma CloseQuote(rest: Bytes, word: Bytes, value: bool)
    ensures GetVal([QUOTE] + rest, INESCVAL, [] + word, true, value) == GotWord(word, rest, true)
  {
    Behind(QUOTE, rest);
    assert [] + word == word;
  }

  // ---- Spelled pairs are recorded ----

  lemma SpaceIgnored(c: byte, rest: Bytes, pairs: seq<Pairs>, key: Bytes)
    requires IsSpace(c)
    ensures Parse([c] + rest, WEQ, pairs, key) == Parse(rest, WEQ, pairs, key)
    ensures Parse([c] + rest, WDEL, pairs, key) == Parse(rest, WDEL, pairs, key)
  {
    Behind(c, rest);
    hide GetVal;
  }

  lemma {:induction false} SpacesIgnored(sp: Bytes, rest: Bytes, pairs: seq<Pairs>, key: Bytes)
    requires Spaces(sp)
    ensures Parse(sp + rest, WEQ, pairs, key) == Parse(rest, WEQ, pairs, key)
    ensures Parse(sp + rest, WDEL, pairs, key) == Parse(rest, WDEL, pairs, key)
    decreases |sp|
  {
    hide Parse, IsSpace;
    if sp == [] {
      NoSpaces(rest);
    } else {
      SpacesFirst(sp, rest);
      SpaceIgnored(sp[0], sp[1..] + rest, pairs, key);
      SpacesIgnored(sp[1..], rest, pairs, key);
    }
  }

  lemma LeftIgnored(w: Word, rest: Bytes, pairs: seq<Pairs>, key: Bytes)
    ensures Parse(Left(w, rest), WEQ, pairs, key) == Parse(rest, WEQ, pairs, key)
    ensures Parse(Left(w, rest), WDEL, pairs, key) == Parse(rest, WDEL, pairs, key)
  {
    hide Parse, IsSpace;
    if w.Bare? && rest != [] && IsSpace(rest[0]) {
      assert rest == [rest[0]] + rest[1..];
      SpaceIgnored(rest[0], rest[1..], pairs, key);
    }
  }

  lemma SpacesEnd(sp: Bytes, rest: Bytes, value: bool)
    requires Spaces(sp) && Ends(rest, value)
    ensures Ends(sp + rest, value)
  {
    if sp == [] { NoSpaces(rest); } else { SpacesFirst(sp, rest); }
  }

  lemma ArrowStep(rest: Bytes, pairs: seq<Pairs>, key: Bytes)
    ensures Parse([EQUALS] + ([GREATER] + rest), WEQ, pairs, key) == Parse(rest, WVAL, pairs, key)
  {
    Behind(EQUALS, [GREATER] + rest);
    Behind(GREATER, rest);
    hide GetVal;
  }

  lemma KeyStep(s: Bytes, w: Bytes, rest: Bytes, e: bool, pairs: seq<Pairs>, k: Bytes)
    requires GetVal(s, WAITVAL, [], false, false) == GotWord(w, rest, e)
    ensures Parse(s, WKEY, pairs, k) == if |w| > HSTORE_MAX_LEN then TooLong else Parse(rest, WEQ, pairs, w)
  {
    hide GetVal;
  }

  lemma ValStep(s: Bytes, w: Bytes, rest: Bytes, e: bool, pairs: seq<Pairs>, k: Bytes)
    requires GetVal(s, WAITVAL, [], false, true) == GotWord(w, rest, e)
    ensures Parse(s, WVAL, pairs, k)
            == if |w| > HSTORE_MAX_LEN then TooLong
               else Parse(rest, WDEL, pairs + [Pairs(k, w, !e && IsNullWord(w), true)], [])
  {
    hide GetVal;
  }

  lemma ReadEntry(e: Entry, rest: Bytes, pairs: seq<Pairs>, k: Bytes)
    requires EntryOk(e) && (Head(rest) == 0 || Head(rest) == COMMA)
    ensures Parse(PutEntry(e, rest), WKEY, pairs, k)
            == if EntryShort(e) then Parse(rest, WDEL, pairs + [Record(e)], []) else TooLong
  {
    hide GetVal, Parse, PutWord, WordOk, Spaces, Ends, Left, IsSpace, IsNullWord;
    var key, val := Content(e.key.pieces), Content(e.val.pieces);
    var behindVal := e.tail + rest;
    var value := e.post + PutWord(e.val, behindVal);
    var arrow := [EQUALS] + ([GREATER] + value);
    ArrowEnds([GREATER] + value);
    RestEnds(rest);
    SpacesEnd(e.mid, arrow, false);
    SpacesEnd(e.tail, rest, true);
    ReadSpelled(e.pre, e.key, e.mid + arrow, false);
    KeyStep(PutEntry(e, rest), key, Left(e.key, e.mid + arrow), e.key.Quoted?, pairs, k);
    LeftIgnored(e.key, e.mid + arrow, pairs, key);
    SpacesIgnored(e.mid, arrow, pairs, key);
    ArrowStep(value, pairs, key);
    ReadSpelled(e.post, e.val, behindVal, true);
    ValStep(value, val, Left(e.val, behindVal), e.val.Quoted?, pairs, key);
    LeftIgnored(e.val, behindVal, pairs + [Record(e)], []);
    SpacesIgnored(e.tail, rest, pairs + [Record(e)], []);
  }

  lemma ArrowEnds(rest: Bytes)
    ensures Ends([EQUALS] + rest, false)
  {
    Behind(EQUALS, rest);
  }

  lemma RestEnds(rest: Bytes)
    requires Head(rest) == 0 || Head(rest) == COMMA
    ensures Ends(rest, true)
  {
  }

  lemma BlankEnds(sp: Bytes, rest: Bytes, pairs: seq<Pairs>)
    requires Spaces(sp) && Head(rest) == 0
    ensures Parse(sp + rest, WKEY, pairs, []) == Ok(pairs)
  {
    SkipSpaces(sp, rest, false);
    hide Spaces, IsSpace;
    assert GetVal(rest, WAITVAL, [], false, false) == NoMore;
    hide GetVal;
  }

  lemma DelStep(rest: Bytes, pairs: seq<Pairs>)
    ensures Head(rest) == 0 ==> Parse(rest, WDEL, pairs, []) == Ok(pairs)
    ensures Parse([COMMA] + rest, WDEL, pairs, []) == Parse(rest, WKEY, pairs, [])
  {
    Behind(COMMA, rest);
    hide GetVal;
  }

  /** Every spelling is read: the pairs it spells are recorded in order, or one of its words is too long. */
  lemma {:induction false} ReadSpelling(t: Spelling, rest: Bytes, pairs: seq<Pairs>)
    requires SpellingOk(t) && Head(rest) == 0
    ensures Parse(Put(t, rest), WKEY, pairs, []) == if Short(t) then Ok(pairs + Records(t)) else TooLong
    decreases t
  {
    hide Parse, Spaces, EntryOk, EntryShort, Record, PutEntry;
    match t
    case Blank(spaces) =>
      BlankEnds(spaces, rest, pairs);
      assert pairs + Records(t) == pairs;
    case Last(e) =>
      ReadEntry(e, rest, pairs, []);
      DelStep(rest, pairs + [Record(e)]);
    case More(e, others) =>
      var behind := Put(others, rest);
      Behind(COMMA, behind);
      ReadEntry(e, [COMMA] + behind, pairs, []);
      DelStep(behind, pairs + [Record(e)]);
      ReadSpelling(others, rest, pairs + [Record(e)]);
      assert pairs + [Record(e)] + Records(others) == pairs + Records(t);
  }

  // ---- Nothing else is read ----

  lemma AddFirst(p: Piece, ps: seq<Piece>, rest: Bytes)
    ensures PutPieces([p] + ps, rest) == PutPieces([p], PutPieces(ps, rest))
    ensures Content([p] + ps) == [p.c] + Content(ps)
    ensures forall q: bool, v: bool, f: bool :: PieceOk(p, q, v, f) && PiecesOk(ps, q, v, false) ==>
            PiecesOk([p] + ps, q, v, f)
  {
    PutFirst([p] + ps, rest);
    assert ([p] + ps)[1..] == ps;
  }

  /** The characters left of a word that is read to its end, and the text behind it, a closing quote excepted. */
  lemma {:induction false} FindPieces(s: Bytes, quoted: bool, word: Bytes, value: bool)
    returns (ps: seq<Piece>, rest: Bytes)
    requires GetVal(s, Inside(quoted), word, quoted, value).GotWord?
    ensures PiecesOk(ps, quoted, value, false) && s == PutPieces(ps, if quoted then [QUOTE] + rest else rest)
    ensures !quoted ==> Ends(rest, value)
    ensures |rest| <= |s|
    decreases |s|
  {
    var c := Head(s);
    if quoted && c == QUOTE {
      ps, rest := [], s[1..];
    } else if !quoted && Ends(s, value) {
      ps, rest := [], s;
    } else {
      var p := if c == BACKSLASH then Escaped(Head(s[1..])) else Plain(c);
      var behind := if c == BACKSLASH then s[1..][1..] else s[1..];
      assert s == PutPieces([p], behind) by { SplitFirst(s, p, behind); }
      PieceStep(p, behind, quoted, word, value);
      hide GetVal;
      ps, rest := FindPieces(behind, quoted, word + [p.c], value);
      AddFirst(p, ps, if quoted then [QUOTE] + rest else rest);
      ps := [p] + ps;
    }
  }

  lemma SplitFirst(s: Bytes, p: Piece, behind: Bytes)
    requires s != [] && p.c != 0
    requires if p.Plain? then s[0] == p.c && behind == s[1..]
             else s[0] == BACKSLASH && Head(s[1..]) == p.c && behind == s[1..][1..]
    ensures s == PutPieces([p], behind)
  {
    assert [p][1..] == [];
  }

  /** The spaces at the front of a text. */
  lemma {:induction false} FindSpaces(s: Bytes) returns (sp: Bytes, rest: Bytes)
    ensures Spaces(sp) && s == sp + rest && !IsSpace(Head(rest))
  {
    if s != [] && IsSpace(s[0]) {
      sp, rest := FindSpaces(s[1..]);
      sp := [s[0]] + sp;
      assert s == [s[0]] + s[1..];
    } else {
      sp, rest := [], s;
    }
  }

  /** The word that is read. */
  lemma FindWord(s: Bytes, value: bool) returns (sp: Bytes, w: Word, rest: Bytes)
    requires GetVal(s, WAITVAL, [], false, value).GotWord?
    ensures Spaces(sp) && WordOk(w, value) && s == sp + PutWord(w, rest) && (w.Bare? ==> Ends(rest, value))
  {
    var behind;
    sp, behind := FindSpaces(s);
    SkipSpaces(sp, behind, value);
    var ps;
    if Head(behind) == QUOTE {
      ps, rest := FindPieces(behind[1..], true, [], value);
      StillFirst(ps, value);
      w := Quoted(ps);
      assert behind == [QUOTE] + behind[1..];
    } else {
      var p := if Head(behind) == BACKSLASH then Escaped(Head(behind[1..])) else Plain(Head(behind));
      var others := if Head(behind) == BACKSLASH then behind[1..][1..] else behind[1..];
      StartsBare(behind, p, others, value);
      ps, rest := FindPieces(others, false, [p.c], value);
      AddFirst(p, ps, rest);
      w := Bare([p] + ps);
    }
  }

  lemma StillFirst(ps: seq<Piece>, value: bool)
    requires PiecesOk(ps, true, value, false)
    ensures PiecesOk(ps, true, value, true)
  {
  }

  lemma StartsBare(s: Bytes, p: Piece, others: Bytes, value: bool)
    requires GetVal(s, WAITVAL, [], false, value).GotWord? && !IsSpace(Head(s)) && Head(s) != QUOTE
    requires p == if Head(s) == BACKSLASH then Escaped(Head(s[1..])) else Plain(Head(s))
    requires s != [] && (Head(s) == BACKSLASH ==> s[1..] != [])
    requires others == if Head(s) == BACKSLASH then s[1..][1..] else s[1..]
    ensures PieceOk(p, false, value, true) && s == PutPieces([p], others)
    ensures GetVal(others, INVAL, [p.c], false, value).GotWord?
  {
    SplitFirst(s, p, others);
    FirstStep(p, others, value);
  }

  lemma FindArrow(s: Bytes, pairs: seq<Pairs>, key: Bytes) returns (sp: Bytes, rest: Bytes)
    requires Parse(s, WEQ, pairs, key).Ok?
    ensures Spaces(sp) && s == sp + ([EQUALS] + ([GREATER] + rest))
            && Parse(rest, WVAL, pairs, key) == Parse(s, WEQ, pairs, key)
  {
    hide GetVal;
    var behind;
    sp, behind := FindSpaces(s);
    SpacesIgnored(sp, behind, pairs, key);
    rest := behind[1..][1..];
    assert behind == [EQUALS] + behind[1..] && behind[1..] == [GREATER] + rest;
  }

  lemma FindEnd(s: Bytes, pairs: seq<Pairs>) returns (sp: Bytes, rest: Bytes)
    requires Parse(s, WDEL, pairs, []).Ok?
    ensures Spaces(sp) && s == sp + rest && Parse(rest, WDEL, pairs, []) == Parse(s, WDEL, pairs, [])
    ensures Head(rest) == 0 || Head(rest) == COMMA
  {
    hide GetVal;
    sp, rest := FindSpaces(s);
    SpacesIgnored(sp, rest, pairs, []);
  }

  /** The pair at the front of a text that is read to its end. */
  lemma FindEntry(s: Bytes, pairs: seq<Pairs>) returns (e: Entry, rest: Bytes)
    requires Parse(s, WKEY, pairs, []).Ok? && !GetVal(s, WAITVAL, [], false, false).NoMore?
    ensures EntryOk(e) && s == PutEntry(e, rest) && (Head(rest) == 0 || Head(rest) == COMMA)
  {
    KeyRead(s, pairs);
    hide GetVal, Parse, PutWord, WordOk, Spaces, Ends, Left, IsSpace, IsNullWord;
    var pre, key, behindKey := FindWord(s, false);
    var k := Content(key.pieces);
    ReadSpelled(pre, key, behindKey, false);
    KeyStep(s, k, Left(key, behindKey), key.Quoted?, pairs, []);
    LeftIgnored(key, behindKey, pairs, k);
    var mid, value := FindArrow(behindKey, pairs, k);
    ValRead(value, pairs, k);
    var post, val, behindVal := FindWord(value, true);
    var w := Content(val.pieces);
    var pairs' := pairs + [Pairs(k, w, !val.Quoted? && IsNullWord(w), true)];
    ReadSpelled(post, val, behindVal, true);
    ValStep(value, w, Left(val, behindVal), val.Quoted?, pairs, k);
    LeftIgnored(val, behindVal, pairs', []);
    var tail;
    tail, rest := FindEnd(behindVal, pairs');
    e := Entry(pre, key, mid, post, val, tail);
  }

  lemma KeyRead(s: Bytes, pairs: seq<Pairs>)
    requires Parse(s, WKEY, pairs, []).Ok? && !GetVal(s, WAITVAL, [], false, false).NoMore?
    ensures GetVal(s, WAITVAL, [], false, false).GotWord?
  {
    hide GetVal;
  }

  lemma ValRead(s: Bytes, pairs: seq<Pairs>, key: Bytes)
    requires Parse(s, WVAL, pairs, key).Ok?
    ensures GetVal(s, WAITVAL, [], false, true).GotWord?
  {
    hide GetVal;
  }

  lemma EntryShorter(e: Entry, rest: Bytes)
    ensures |rest| < |PutEntry(e, rest)|
  {
    WordLonger(e.key, e.mid + ([EQUALS] + ([GREATER] + (e.post + PutWord(e.val, e.tail + rest)))));
    WordLonger(e.val, e.tail + rest);
    hide PutWord;
  }

  lemma WordLonger(w: Word, rest: Bytes)
    ensures |rest| <= |PutWord(w, rest)|
  {
    PiecesLonger(w.pieces, if w.Quoted? then [QUOTE] + rest else rest);
    hide PutPieces;
  }

  lemma {:induction false} PiecesLonger(ps: seq<Piece>, rest: Bytes)
    ensures |rest| <= |PutPieces(ps, rest)|
  {
    if ps != [] {
      PiecesLonger(ps[1..], rest);
    }
  }

  lemma NoMoreIsBlank(s: Bytes) returns (sp: Bytes, rest: Bytes)
    requires GetVal(s, WAITVAL, [], false, false).NoMore?
    ensures Spaces(sp) && s == sp + rest && Head(rest) == 0
  {
    sp, rest := FindSpaces(s);
    SkipSpaces(sp, rest, false);
    if Head(rest) != 0 {
      NeverNoMore(rest);
    }
  }

  lemma NeverNoMore(s: Bytes)
    requires !IsSpace(Head(s)) && Head(s) != 0
    ensures !GetVal(s, WAITVAL, [], false, false).NoMore?
  {
    StartedGoesOn(s[1..], INESCVAL, [], true);
    StartedGoesOn(s[1..], WAITESCIN, [], false);
    StartedGoesOn(s[1..], INVAL, [s[0]], false);
    assert [] + [s[0]] == [s[0]];
  }

  lemma {:induction false} StartedGoesOn(s: Bytes, st: VState, word: Bytes, escaped: bool)
    requires st != WAITVAL
    ensures !GetVal(s, st, word, escaped, false).NoMore?
    decreases |s|
  {
    if s != [] {
      var c := s[0];
      StartedGoesOn(s[1..], WAITESCIN, word, escaped);
      StartedGoesOn(s[1..], WAITESCESCIN, word, escaped);
      StartedGoesOn(s[1..], INVAL, word + [c], escaped);
      StartedGoesOn(s[1..], INESCVAL, word + [c], escaped);
    }
  }

  /** The spelling of a text that is read. */
  lemma {:induction false} FindSpelling(s: Bytes, pairs: seq<Pairs>) returns (t: Spelling, rest: Bytes)
    requires Parse(s, WKEY, pairs, []).Ok?
    ensures SpellingOk(t) && s == Put(t, rest) && Head(rest) == 0
    decreases |s|
  {
    hide GetVal, Parse, Spaces, EntryOk, PutEntry;
    if GetVal(s, WAITVAL, [], false, false).NoMore? {
      var sp;
      sp, rest := NoMoreIsBlank(s);
      t := Blank(sp);
    } else {
      var e, behind := FindEntry(s, pairs);
      if Head(behind) == 0 {
        t, rest := Last(e), behind;
      } else {
        assert behind == [COMMA] + behind[1..];
        EntryShorter(e, behind);
        ReadEntry(e, behind, pairs, []);
        DelStep(behind[1..], pairs + [Record(e)]);
        var others;
        others, rest := FindSpelling(behind[1..], pairs + [Record(e)]);
        t := More(e, others);
      }
    }
  }

  /** The text, up to a NUL, spells these pairs. */
  ghost predicate Spells(s: Bytes, ps: seq<Pairs>) {
    exists t, rest :: SpellingOk(t) && Short(t) && s == Put(t, rest) && Head(rest) == 0 && Records(t) == ps
  }

  /** parse_hstore reads exactly the spellings whose words are not too long, each as the pairs it spells. */
  lemma ParsesExactly(s: Bytes, ps: seq<Pairs>)
    ensures Parse(s, WKEY, [], []) == Ok(ps) <==> Spells(s, ps)
  {
    hide Parse, SpellingOk, Short, Put, Records;
    if Parse(s, WKEY, [], []).Ok? {
      var t, rest := FindSpelling(s, []);
      ReadSpelling(t, rest, []);
      assert [] + Records(t) == Records(t);
    }
    forall t, rest | SpellingOk(t) && Short(t) && s == Put(t, rest) && Head(rest) == 0
      ensures Parse(s, WKEY, [], []) == Ok(Records(t))
    {
      ReadSpelling(t, rest, []);
      assert [] + Records(t) == Records(t);
    }
  }

  // ---- The spelling that is printed ----

  /** Quotes and backslashes behind a backslash, everything else plain. */
  function Escaping(s: Bytes): (ps: seq<Piece>)
    ensures Content(ps) == s
  {
    var ps := seq(|s|, i requires 0 <= i < |s| =>
                         if s[i] == QUOTE || s[i] == BACKSLASH then Escaped(s[i]) else Plain(s[i]));
    assert Content(ps) == s;
    ps
  }

  /** Key and value quoted, a null as the bare word, one space behind each comma. */
  function PrintedEntry(p: Pair, pre: Bytes): Entry {
    Entry(pre, Quoted(Escaping(p.key)), [], [],
          if p.val.Null? then Bare(Escaping(NULL_WORD)) else Quoted(Escaping(p.val.bytes)), [])
  }

  function PrintedSpelling(ps: seq<Pair>, pre: Bytes): Spelling
    requires ps != []
  {
    if |ps| == 1 then Last(PrintedEntry(ps[0], pre))
    else More(PrintedEntry(ps[0], pre), PrintedSpelling(ps[1..], [SPACE]))
  }

  lemma EscapingFirst(s: Bytes)
    requires s != []
    ensures Escaping(s) != [] && Escaping(s)[1..] == Escaping(s[1..])
    ensures Escaping(s)[0] == if s[0] == QUOTE || s[0] == BACKSLASH then Escaped(s[0]) else Plain(s[0])
  {
  }

  lemma EscapeFirst(s: Bytes, rest: Bytes)
    requires s != []
    ensures var behind := [s[0]] + (Escape(s[1..]) + rest);
            Escape(s) + rest == if s[0] == QUOTE || s[0] == BACKSLASH then [BACKSLASH] + behind else behind
  {
    assert Escape(s) == (if s[0] == QUOTE || s[0] == BACKSLASH then [BACKSLASH, s[0]] else [s[0]]) + Escape(s[1..]);
    hide Escape;
    Regroup(BACKSLASH, s[0], Escape(s[1..]), rest);
  }

  lemma Regroup(a: byte, b: byte, s: Bytes, rest: Bytes)
    ensures [a, b] + s + rest == [a] + ([b] + (s + rest)) && [b] + s + rest == [b] + (s + rest)
  {
  }

  lemma {:induction false} EscapingIs(s: Bytes, rest: Bytes)
    ensures PutPieces(Escaping(s), rest) == Escape(s) + rest
  {
    if s == [] {
      NoSpaces(rest);
    } else {
      hide Escaping, Escape;
      EscapingIs(s[1..], rest);
      EscapingFirst(s);
      EscapeFirst(s, rest);
    }
  }

  lemma NullIs(rest: Bytes)
    ensures PutPieces(Escaping(NULL_WORD), rest) == NULL_WORD + rest
  {
    EscapingIs(NULL_WORD, rest);
    assert NULL_WORD[1..] == [85, 76, 76] && [85, 76, 76][1..] == [76, 76] && [76, 76][1..] == [76] && [76][1..] == [];
    assert Escape([]) == [];
    assert Escape([76]) == [76] + Escape([]);
    assert Escape([76, 76]) == [76] + Escape([76]);
    assert Escape([85, 76, 76]) == [85] + Escape([76, 76]);
    assert Escape(NULL_WORD) == [78] + Escape([85, 76, 76]);
  }

  lemma PrintedKeyIs(key: Bytes, rest: Bytes)
    ensures PutWord(Quoted(Escaping(key)), rest) == [QUOTE] + (Escape(key) + ([QUOTE] + rest))
  {
    EscapingIs(key, [QUOTE] + rest);
  }

  lemma PrintedValueIs(v: Value, rest: Bytes)
    ensures PutWord(if v.Null? then Bare(Escaping(NULL_WORD)) else Quoted(Escaping(v.bytes)), rest)
            == PrintValue(v) + rest
  {
    hide Escape, PutPieces, Escaping;
    if v.Null? {
      NullIs(rest);
    } else {
      EscapingIs(v.bytes, [QUOTE] + rest);
      assert PrintValue(v) + rest == [QUOTE] + (Escape(v.bytes) + ([QUOTE] + rest));
    }
  }

  lemma ArrowIs(rest: Bytes)
    ensures [] + ([EQUALS] + ([GREATER] + ([] + rest))) == [EQUALS, GREATER] + rest
  {
    NoSpaces(rest);
  }

  lemma PrintedEntryIs(p: Pair, pre: Bytes, rest: Bytes)
    ensures PutEntry(PrintedEntry(p, pre), rest) == pre + (PrintPair(p) + rest)
  {
    hide Escape, PutWord, PrintValue, PrintPair, Escaping;
    var value := PrintValue(p.val) + rest;
    NoSpaces(rest);
    PrintedValueIs(p.val, rest);
    ArrowIs(value);
    PrintedKeyIs(p.key, [EQUALS, GREATER] + value);
    PrintedPair(p, rest);
  }

  /** hstore_out prints this spelling. */
  lemma {:induction false} PrintIsSpelling(ps: seq<Pair>, pre: Bytes)
    requires ps != []
    ensures Put(PrintedSpelling(ps, pre), []) == pre + Print(ps)
  {
    hide PutEntry, PrintedEntry, PrintPair;
    if |ps| == 1 {
      PrintedEntryIs(ps[0], pre, []);
      assert PrintPair(ps[0]) + [] == PrintPair(ps[0]);
    } else {
      PrintIsSpelling(ps[1..], [SPACE]);
      var behind := [COMMA] + ([SPACE] + Print(ps[1..]));
      PrintedEntryIs(ps[0], pre, behind);
      assert behind == [COMMA, SPACE] + Print(ps[1..]);
    }
  }
}
