/** get_val and parse_hstore as they move their pointers and grow their buffers. */
module HstoreParser {
  import opened Wrappers
  import opened Lex
  import opened HstorePairs
  import opened HstoreText

  datatype Outcome = Found | Missing | Error

  lemma Advance(text: Bytes, ptr: nat)
    requires ptr <= |text|
    ensures if ptr == |text| then Head(text[ptr..]) == 0
            else text[ptr..] != [] && text[ptr..][1..] == text[ptr + 1..] && Head(text[ptr..]) == text[ptr]
  {
  }

  class HSParser {
    const text: Bytes
    var ptr: nat
    var word: Bytes
    var cur: nat
    var pairs: seq<Pairs>
    var pcur: nat

    constructor (begin: Bytes)
      ensures text == begin
    {
      text := begin;
      ptr, word, cur, pairs, pcur := 0, [], 0, [], 0;
    }

    /** The bytes of the word so far. */
    function CurrentWord(): Bytes
      requires cur <= |word|
      reads this
    {
      word[..cur]
    }

    /** RESIZEPRSBUF and one byte into the word. */
    method AddByte(c: byte)
      requires cur < |word|
      modifies this`word, this`cur
      ensures cur < |word| && CurrentWord() == old(CurrentWord()) + [c] && |word| >= old(|word|)
    {
      if cur + 1 >= |word| {
        word := word + seq(|word|, _ => 0);
      }
      word := word[cur := c];
      cur := cur + 1;
    }

    /** What get_val should come to from here. */
    function Getting(st: VState, escaped: bool, ignoreeq: bool): Got
      requires ptr <= |text| && cur <= |word|
      reads this
    {
      GetVal(text[ptr..], st, CurrentWord(), escaped, ignoreeq)
    }

    /** One round of the loop in get_val: the byte at the pointer, in some state. None: the loop goes on. */
    method GetByte(st: VState, escaped: bool, ignoreeq: bool) returns (r: Option<Outcome>, st': VState, escaped': bool)
      requires ptr <= |text| && cur < |word| && (st != WAITVAL ==> 0 < ptr)
      modifies this`ptr, this`word, this`cur
      ensures cur < |word| && |word| >= old(|word|)
      ensures match r
              case None =>
                && ptr == old(ptr) + 1 <= |text|
                && Getting(st', escaped', ignoreeq) == old(Getting(st, escaped, ignoreeq))
              case Some(Found) =>
                && ptr < |text| && (ptr == old(ptr) || (ptr == old(ptr) - 1 && st != WAITVAL))
                && old(Getting(st, escaped, ignoreeq)) == GotWord(CurrentWord(), text[ptr + 1..], escaped')
              case Some(Missing) => old(Getting(st, escaped, ignoreeq)) == NoMore
              case Some(Error) => old(Getting(st, escaped, ignoreeq)) == Bad
      ensures r.None? ==> st' == WAITVAL ==> st == WAITVAL
    {
      hide IsSpace, Head;
      var c := Head(text[ptr..]);
      Advance(text, ptr);
      r, st', escaped' := None, st, escaped;
      match st {
        case WAITVAL =>
          if c == QUOTE {
            escaped' := true;
            st' := INESCVAL;
          } else if c == 0 {
            r := Some(Missing);
            return;
          } else if c == EQUALS && !ignoreeq {
            r := Some(Error);
            return;
          } else if c == BACKSLASH {
            st' := WAITESCIN;
          } else if !IsSpace(c) {
            AddByte(c);
            st' := INVAL;
          }
        case INVAL =>
          if c == BACKSLASH {
            st' := WAITESCIN;
          } else if (c == EQUALS && !ignoreeq) || (c == COMMA && ignoreeq) || c == 0 {
            ptr := ptr - 1;
            r := Some(Found);
            return;
          } else if IsSpace(c) {
            r := Some(Found);
            return;
          } else {
            AddByte(c);
          }
        case INESCVAL =>
          if c == BACKSLASH {
            st' := WAITESCESCIN;
          } else if c == QUOTE {
            r := Some(Found);
            return;
          } else if c == 0 {
            r := Some(Error);
            return;
          } else {
            AddByte(c);
          }
        case WAITESCIN =>
          if c == 0 {
            r := Some(Error);
            return;
          }
          AddByte(c);
          st' := INVAL;
        case WAITESCESCIN =>
          if c == 0 {
            r := Some(Error);
            return;
          }
          AddByte(c);
          st' := INESCVAL;
      }
      ptr := ptr + 1;
    }

    /** get_val. On success the pointer is left on the last byte consumed, and the word is in the buffer. */
    method GetValue(ignoreeq: bool) returns (r: Outcome, escaped: bool)
      requires ptr <= |text|
      modifies this`ptr, this`word, this`cur
      ensures match GetVal(text[old(ptr)..], WAITVAL, [], false, ignoreeq)
              case GotWord(w, rest, e) =>
                r == Found && escaped == e && cur <= |word| && CurrentWord() == w && |word| >= 32
                && old(ptr) <= ptr < |text| && text[ptr + 1..] == rest
              case NoMore => r == Missing
              case Bad => r == Error
    {
      hide GetVal;
      var st := WAITVAL;
      word := seq(32, _ => 0);
      cur := 0;
      escaped := false;
      ghost var expected := GetVal(text[ptr..], WAITVAL, [], false, ignoreeq);
      assert word[..0] == [];
      while true
        invariant old(ptr) <= ptr <= |text| && cur < |word| && |word| >= 32
        invariant st != WAITVAL ==> old(ptr) < ptr
        invariant Getting(st, escaped, ignoreeq) == expected
        decreases |text| - ptr
      {
        var done;
        done, st, escaped := GetByte(st, escaped, ignoreeq);
        if done.Some? {
          return done.value, escaped;
        }
      }
    }

    /** The pairs recorded so far. */
    function Recordeds(): seq<Pairs>
      requires pcur <= |pairs|
      reads this
    {
      pairs[..pcur]
    }

    /** Room for one more pair, doubling the array if it is full. */
    method GrowPairs()
      requires pcur <= |pairs| && |pairs| > 0
      modifies this`pairs
      ensures pcur < |pairs| && Recordeds() == old(Recordeds())
    {
      if pcur >= |pairs| {
        pairs := pairs + seq(|pairs|, _ => Pairs([], [], false, false));
      }
    }

    /** What parse_hstore should come to from here. */
    function Parsing(st: PState, key: Bytes): Parsed
      requires ptr <= |text| && pcur <= |pairs|
      reads this
    {
      Parse(text[ptr..], st, Recordeds(), if st == WKEY || st == WDEL then [] else key)
    }

    /** One round of the loop in parse_hstore, in a state that reads a word. None: the loop goes on. */
    method ReadWordAndGoOn(st: PState, key: Bytes) returns (r: Option<Parsed>, st': PState, key': Bytes)
      requires ptr <= |text| && pcur <= |pairs| && |pairs| > 0 && (st == WKEY || (st == WVAL && pcur < |pairs|))
      modifies this
      ensures r.None? ==> old(ptr) < ptr <= |text| && pcur <= |pairs| && |pairs| > 0 && (st' == WEQ ==> pcur < |pairs|)
      ensures r.None? ==> (st' == WEQ || st' == WDEL) && Parsing(st', key') == old(Parsing(st, key))
      ensures r.Some? ==> r.value == old(Parsing(st, key))
      ensures r.Some? && r.value.Ok? ==> pcur <= |pairs| && Recordeds() == r.value.pairs
    {
      hide GetVal, IsSpace, Lower;
      r, st', key' := None, st, key;
      if st == WKEY {
        var got, escaped := GetValue(false);
        if got == Missing {
          return Some(Ok(Recordeds())), st', key';
        }
        if got == Error {
          return Some(SyntaxError), st', key';
        }
        GrowPairs();
        key' := CurrentWord();
        if |key'| > HSTORE_MAX_LEN {
          return Some(TooLong), st', key';
        }
        st' := WEQ;
      } else {
        var got, escaped := GetValue(true);
        if got != Found {
          return Some(SyntaxError), st', key';
        }
        var val := CurrentWord();
        if |val| > HSTORE_MAX_LEN {
          return Some(TooLong), st', key';
        }
        var isnull := false;
        if cur == 4 && !escaped {
          isnull := IsNullWord(val);
          word := word[4 := 0];
        }
        RecordPair(Pairs(key, val, isnull, true));
        st' := WDEL;
      }
      ptr := ptr + 1;
    }

    /** One round in a state that looks at one byte. */
    method ReadByteAndGoOn(st: PState, key: Bytes) returns (r: Option<Parsed>, st': PState)
      requires ptr <= |text| && pcur <= |pairs| && st != WKEY && st != WVAL
      modifies this`ptr
      ensures r.None? ==> old(ptr) < ptr <= |text| && (st' == WKEY || st' == WDEL <==> st == WDEL)
      ensures r.None? ==> Parsing(st', key) == old(Parsing(st, key))
      ensures r.Some? ==> r.value == old(Parsing(st, key)) && (r.value.Ok? ==> Recordeds() == r.value.pairs)
    {
      hide GetVal, IsSpace;
      r, st' := None, st;
      var c := Head(text[ptr..]);
      Advance(text, ptr);
      match st {
        case WEQ =>
          if c == EQUALS {
            st' := WGT;
          } else if c == 0 || !IsSpace(c) {
            return Some(SyntaxError), st';
          }
        case WGT =>
          if c == GREATER {
            st' := WVAL;
          } else {
            return Some(SyntaxError), st';
          }
        case WDEL =>
          if c == COMMA {
            st' := WKEY;
          } else if c == 0 {
            return Some(Ok(Recordeds())), st';
          } else if !IsSpace(c) {
            return Some(SyntaxError), st';
          }
      }
      ptr := ptr + 1;
    }

    /** parse_hstore. */
    method ParseHstore() returns (r: Parsed)
      modifies this
      ensures r == Parse(text, WKEY, [], [])
      ensures r.Ok? ==> pcur <= |pairs| && Recordeds() == r.pairs
    {
      hide Parse;
      var st := WKEY;
      pairs := seq(16, _ => Pairs([], [], false, false));
      pcur := 0;
      ptr := 0;
      var key: Bytes := [];
      assert text[0..] == text && pairs[..0] == [];
      while true
        invariant ptr <= |text| && pcur <= |pairs| && |pairs| > 0
        invariant st != WKEY && st != WDEL ==> pcur < |pairs|
        invariant Parsing(st, key) == Parse(text, WKEY, [], [])
        decreases |text| - ptr
      {
        var done;
        if st == WKEY || st == WVAL {
          done, st, key := ReadWordAndGoOn(st, key);
        } else {
          done, st := ReadByteAndGoOn(st, key);
        }
        if done.Some? {
          return done.value;
        }
      }
    }

    method RecordPair(p: Pairs)
      requires pcur < |pairs|
      modifies this`pairs, this`pcur
      ensures pcur <= |pairs| && |pairs| == old(|pairs|) && Recordeds() == old(Recordeds()) + [p]
    {
      pairs := pairs[pcur := p];
      pcur := pcur + 1;
    }
  }
}
