/** TextMapper (text_mapper.py:12-57): the codec between characters and the
    integer codes of a label. Code 0 is the joker, code 1 the padding symbol,
    and every character the mapper has never seen is encoded as the joker. */
module TextMapper {
  import opened Results
  import opened PyList

  /** A TextMapper object. `toCode` holds the code points of _to_char, so a
      translated character's ord is read off directly. */
  datatype Mapper = Mapper(
    chars: seq<char>,
    charMapping: map<char, string>,
    fromChar: seq<char>,
    toCode: seq<int>,
    joker: char,
    pad: char,
    jokerPosition: int)

  // ---------------------------------------------------------------------
  // The translation table

  /** list.index: the first position holding c. */
  function IndexOf(s: seq<char>, c: char): (r: Option<nat>)
    ensures r.Some? <==> c in s
    ensures r.Some? ==> r.value < |s| && s[r.value] == c
    ensures r.Some? ==> forall j :: 0 <= j < r.value ==> s[j] != c
    decreases |s|
  {
    if |s| == 0 then None
    else if s[0] == c then Some(0)
    else match IndexOf(s[1..], c)
      case None => None
      case Some(k) => Some(k + 1)
  }

  /** The last position holding c, or -1. */
  function LastIndex(s: seq<char>, c: char): (r: int)
    ensures -1 <= r < |s|
    ensures r == -1 <==> c !in s
    ensures 0 <= r ==> s[r] == c
    ensures 0 <= r ==> forall j :: r < j < |s| ==> s[j] != c
    decreases |s|
  {
    if |s| == 0 then -1
    else if s[|s| - 1] == c then |s| - 1
    else LastIndex(s[..|s| - 1], c)
  }

  /** str.maketrans over two columns of equal length: a dictionary filled from
      left to right, so a character listed twice keeps its last target. */
  function MakeTrans(from: seq<char>, to: seq<int>): (t: map<char, int>)
    requires |from| == |to|
    ensures forall c :: c in t <==> c in from
    decreases |from|
  {
    if |from| == 0 then map[]
    else MakeTrans(from[..|from| - 1], to[..|to| - 1])[from[|from| - 1] := to[|to| - 1]]
  }

  /** The entry maketrans keeps is the one at the last occurrence. */
  lemma {:induction false} MakeTransLast(from: seq<char>, to: seq<int>, c: char)
    requires |from| == |to| && c in from
    ensures MakeTrans(from, to)[c] == to[LastIndex(from, c)]
    decreases |from|
  {
    var n := |from| - 1;
    if from[n] != c {
      assert c in from[..n] by {
        var k :| 0 <= k < |from| && from[k] == c;
        assert from[..n][k] == c;
      }
      MakeTransLast(from[..n], to[..n], c);
    }
  }

  /** [chr(i) for i in range(n)], as code points. */
  function Identity(n: nat): (r: seq<int>)
    ensures |r| == n
    ensures forall i :: 0 <= i < n ==> r[i] == i
  {
    seq(n, i requires 0 <= i < n => i)
  }

  /** The code translate-then-ord gives one character: its table entry, or
      its own code point when the table does not list it. */
  function Code(m: Mapper, c: char): (r: int)
    requires |m.fromChar| == |m.toCode|
    ensures c in m.fromChar ==> r == m.toCode[LastIndex(m.fromChar, c)]
    ensures c !in m.fromChar ==> r == c as int
  {
    var table := MakeTrans(m.fromChar, m.toCode);
    if c in table then
      MakeTransLast(m.fromChar, m.toCode, c);
      table[c]
    else c as int
  }

  // ---------------------------------------------------------------------
  // Construction and the invariant

  /** What every TextMapper satisfies: the table starts with [joker, pad] +
      chars mapped to their own positions, and each character appended later
      is new, listed once and mapped to the joker's code. */
  predicate Valid(m: Mapper) {
    && 2 <= |m.chars| && m.chars[0] == m.joker && m.chars[1] == m.pad
    && m.jokerPosition == 0
    && |m.chars| <= |m.fromChar| == |m.toCode|
    && m.fromChar[..|m.chars|] == m.chars
    && (forall i :: 0 <= i < |m.chars| ==> m.toCode[i] == i)
    && (forall i :: |m.chars| <= i < |m.toCode| ==> m.toCode[i] == m.jokerPosition)
    && (forall i :: |m.chars| <= i < |m.fromChar| ==> m.fromChar[i] !in m.chars)
    && (forall i, j :: |m.chars| <= i < j < |m.fromChar| ==> m.fromChar[i] != m.fromChar[j])
  }

  /** TextMapper.__init__. */
  function NewMapper(chars: seq<char>, joker: char, pad: char, charMapping: map<char, string>): (m: Mapper)
    ensures Valid(m)
    ensures m.chars == m.fromChar == [joker, pad] + chars
    ensures m.charMapping == charMapping && m.joker == joker && m.pad == pad
  {
    var table := [joker, pad] + chars;
    Mapper(table, charMapping, table, Identity(|table|), joker, pad, IndexOf(table, joker).value)
  }

  /** Under the invariant, a character of the initial table encodes as a
      position holding it, any other listed character as the joker's code, and
      an unlisted one as its own code point. */
  lemma CodeOf(m: Mapper, c: char)
    requires Valid(m)
    ensures c in m.chars ==> 0 <= Code(m, c) < |m.chars| && m.chars[Code(m, c)] == c
    ensures c in m.chars ==> Code(m, c) == LastIndex(m.chars, c)
    ensures c !in m.chars && c in m.fromChar ==> Code(m, c) == 0
    ensures c !in m.fromChar ==> Code(m, c) == c as int
  {
    if c in m.fromChar {
      MakeTransLast(m.fromChar, m.toCode, c);
      if c in m.chars {
        KnownLast(m, c);
      } else {
        assert LastIndex(m.fromChar, c) >= |m.chars|;
      }
    }
  }

  /** A character of the initial table is last listed inside it. */
  lemma KnownLast(m: Mapper, c: char)
    requires Valid(m) && c in m.chars
    ensures LastIndex(m.fromChar, c) == LastIndex(m.chars, c)
  {
    var n := |m.chars|;
    var k := LastIndex(m.fromChar, c);
    var j :| 0 <= j < n && m.chars[j] == c;
    assert m.fromChar[j] == m.chars[j];
    assert k < n;
    assert m.fromChar[k] == m.chars[k];
    forall i | k < i < n
      ensures m.chars[i] != c
    {
      assert m.fromChar[i] == m.chars[i];
    }
  }

  /** With the table's entries pairwise distinct, the joker has code 0, the
      padding symbol code 1 and chars[k] code k + 2 (text_mapper.py:15-21). */
  lemma InitialCodes(chars: seq<char>, joker: char, pad: char, charMapping: map<char, string>)
    requires Distinct([joker, pad] + chars)
    ensures var m := NewMapper(chars, joker, pad, charMapping);
            && Code(m, joker) == 0
            && Code(m, pad) == 1
            && forall k :: 0 <= k < |chars| ==> Code(m, chars[k]) == k + 2
  {
    var m := NewMapper(chars, joker, pad, charMapping);
    var t := m.chars;
    CodeOf(m, joker);
    CodeOf(m, pad);
    DistinctLast(t, 0);
    DistinctLast(t, 1);
    forall k | 0 <= k < |chars|
      ensures Code(m, chars[k]) == k + 2
    {
      assert t[k + 2] == chars[k];
      CodeOf(m, chars[k]);
      DistinctLast(t, k + 2);
    }
  }

  /** In a sequence without repeats, the last occurrence is the only one. */
  lemma DistinctLast(s: seq<char>, k: int)
    requires Distinct(s) && 0 <= k < |s|
    ensures LastIndex(s, s[k]) == k
  {
    var l := LastIndex(s, s[k]);
    assert s[l] == s[k];
  }

  // ---------------------------------------------------------------------
  // map_text

  /** What map_text yields for one character. */
  function MapChar(mapping: map<char, string>, c: char): string {
    if c in mapping then mapping[c] else [c]
  }

  /** map_text: one string per character of the text. */
  function MapText(m: Mapper, text: string): (r: seq<string>)
    ensures |r| == |text|
    ensures forall i :: 0 <= i < |text| && text[i] in m.charMapping ==> r[i] == m.charMapping[text[i]]
    ensures forall i :: 0 <= i < |text| && text[i] !in m.charMapping ==> r[i] == [text[i]]
  {
    seq(|text|, i requires 0 <= i < |text| => MapChar(m.charMapping, text[i]))
  }

  /** ''.join over a sequence of strings. */
  function Flatten(parts: seq<string>): string
    decreases |parts|
  {
    if |parts| == 0 then [] else parts[0] + Flatten(parts[1..])
  }

  /** The mapped text that texts_to_labels translates (text_mapper.py:32, 41). */
  function Mapped(m: Mapper, text: string): string {
    Flatten(MapText(m, text))
  }

  lemma MapTextTail(m: Mapper, text: string)
    requires |text| > 0
    ensures Mapped(m, text) == MapChar(m.charMapping, text[0]) + Mapped(m, text[1..])
  {
    assert MapText(m, text)[1..] == MapText(m, text[1..]);
  }

  /** Without a substitution map, map_text changes nothing (text_mapper.py:28-29). */
  lemma {:induction false} MapTextIdentity(m: Mapper, text: string)
    requires m.charMapping == map[]
    ensures Mapped(m, text) == text
    decreases |text|
  {
    if |text| > 0 {
      MapTextTail(m, text);
      MapTextIdentity(m, text[1..]);
      assert text == [text[0]] + text[1..];
    }
  }

  /** When every substitute is a single character, map_text keeps the length
      and substitutes character by character. */
  lemma {:induction false} MapTextSingle(m: Mapper, text: string)
    requires forall c :: c in m.charMapping ==> |m.charMapping[c]| == 1
    ensures |Mapped(m, text)| == |text|
    ensures forall i :: 0 <= i < |text| ==>
              Mapped(m, text)[i] == if text[i] in m.charMapping then m.charMapping[text[i]][0] else text[i]
    decreases |text|
  {
    if |text| > 0 {
      MapTextTail(m, text);
      MapTextSingle(m, text[1..]);
      var r := Mapped(m, text);
      forall i | 1 <= i < |text|
        ensures r[i] == if text[i] in m.charMapping then m.charMapping[text[i]][0] else text[i]
      {
        assert r[i] == Mapped(m, text[1..])[i - 1];
        assert text[1..][i - 1] == text[i];
      }
    }
  }

  /** Two mappers with the same substitution map map texts alike. */
  lemma SameMapping(m: Mapper, n: Mapper, text: string)
    requires m.charMapping == n.charMapping
    ensures Mapped(m, text) == Mapped(n, text)
  {
    assert MapText(m, text) == MapText(n, text);
  }

  // ---------------------------------------------------------------------
  // texts_to_labels

  /** All mapped characters of the texts, in order (text_mapper.py:33). */
  function Joined(m: Mapper, texts: seq<string>): string
    decreases |texts|
  {
    if |texts| == 0 then [] else Mapped(m, texts[0]) + Joined(m, texts[1..])
  }

  /** missing_chars: the mapped characters the table does not list yet. */
  function Missing(m: Mapper, texts: seq<string>): set<char> {
    set c | c in Joined(m, texts) && c !in m.fromChar
  }

  /** `order` lists each element of `s` exactly once: the order in which the
      loop at text_mapper.py:35 visits the set. */
  predicate Enumerates(order: seq<char>, s: set<char>) {
    && (forall i, j :: 0 <= i < j < |order| ==> order[i] != order[j])
    && (forall c :: c in order <==> c in s)
  }

  /** translate followed by ord, for a whole string. */
  function Encode(m: Mapper, s: string): (r: seq<int>)
    requires |m.fromChar| == |m.toCode|
    ensures |r| == |s|
    ensures forall i :: 0 <= i < |s| && s[i] in m.fromChar ==> r[i] == m.toCode[LastIndex(m.fromChar, s[i])]
    ensures forall i :: 0 <= i < |s| && s[i] !in m.fromChar ==> r[i] == s[i] as int
  {
    seq(|s|, i requires 0 <= i < |s| => Code(m, s[i]))
  }

  /** The mapper after a call, with the labels the call returns. */
  datatype Encoded = Encoded(mapper: Mapper, labels: seq<seq<int>>)

  /** texts_to_labels. `order` is the iteration order of missing_chars. */
  function TextsToLabels(m: Mapper, texts: seq<string>, order: seq<char>): (r: Encoded)
    requires |m.fromChar| == |m.toCode|
    requires Enumerates(order, Missing(m, texts))
    ensures |r.labels| == |texts|
    ensures forall i :: 0 <= i < |texts| ==> |r.labels[i]| == |Mapped(m, texts[i])|
    ensures |m.fromChar| <= |r.mapper.fromChar| == |r.mapper.toCode|
    ensures r.mapper.fromChar[..|m.fromChar|] == m.fromChar
    ensures r.mapper.toCode[..|m.toCode|] == m.toCode
    ensures forall c :: c in r.mapper.fromChar[|m.fromChar|..] <==> c in Missing(m, texts)
    ensures r.mapper.chars == m.chars && r.mapper.charMapping == m.charMapping
  {
    var n := if |order| > 0
      then m.(fromChar := m.fromChar + order, toCode := m.toCode + Repeat(m.jokerPosition, |order|))
      else m;
    assert n.fromChar[|m.fromChar|..] == order;
    Encoded(n, seq(|texts|, i requires 0 <= i < |texts| => Encode(n, Mapped(m, texts[i]))))
  }

  /** texts_to_labels keeps the mapper valid (text_mapper.py:33-39). */
  lemma TextsToLabelsValid(m: Mapper, texts: seq<string>, order: seq<char>)
    requires Valid(m)
    requires Enumerates(order, Missing(m, texts))
    ensures Valid(TextsToLabels(m, texts, order).mapper)
  {
    var n := TextsToLabels(m, texts, order).mapper;
    if |order| > 0 {
      forall k | 0 <= k < |order|
        ensures order[k] !in m.fromChar
      {
        assert order[k] in Missing(m, texts);
      }
      AppendValid(m, order, n);
    }
  }

  /** Appending new, pairwise distinct characters mapped to the joker's code
      keeps a mapper valid. */
  lemma AppendValid(m: Mapper, order: seq<char>, n: Mapper)
    requires Valid(m)
    requires forall i, j :: 0 <= i < j < |order| ==> order[i] != order[j]
    requires forall k :: 0 <= k < |order| ==> order[k] !in m.fromChar
    requires n == m.(fromChar := m.fromChar + order, toCode := m.toCode + Repeat(m.jokerPosition, |order|))
    ensures Valid(n)
  {
    var k := |m.chars|;
    assert n.fromChar[..k] == m.fromChar[..k];
    AppendCodes(m, order, n);
    AppendFresh(m, order, n);
    AppendDistinct(m, order, n);
  }

  lemma AppendFresh(m: Mapper, order: seq<char>, n: Mapper)
    requires Valid(m)
    requires forall k :: 0 <= k < |order| ==> order[k] !in m.fromChar
    requires n.fromChar == m.fromChar + order
    ensures forall i :: |m.chars| <= i < |n.fromChar| ==> n.fromChar[i] !in m.chars
  {
    var a := |m.fromChar|;
    forall i | |m.chars| <= i < |n.fromChar|
      ensures n.fromChar[i] !in m.chars
    {
      if i >= a {
        assert n.fromChar[i] == order[i - a];
      }
    }
  }

  lemma AppendDistinct(m: Mapper, order: seq<char>, n: Mapper)
    requires Valid(m)
    requires forall i, j :: 0 <= i < j < |order| ==> order[i] != order[j]
    requires forall k :: 0 <= k < |order| ==> order[k] !in m.fromChar
    requires n.fromChar == m.fromChar + order
    ensures forall i, j :: |m.chars| <= i < j < |n.fromChar| ==> n.fromChar[i] != n.fromChar[j]
  {
    var a := |m.fromChar|;
    forall i, j | |m.chars| <= i < j < |n.fromChar|
      ensures n.fromChar[i] != n.fromChar[j]
    {
      if j >= a {
        assert n.fromChar[j] == order[j - a];
        if i >= a {
          assert n.fromChar[i] == order[i - a];
        } else {
          assert n.fromChar[i] == m.fromChar[i];
        }
      }
    }
  }

  lemma AppendCodes(m: Mapper, order: seq<char>, n: Mapper)
    requires Valid(m)
    requires n == m.(fromChar := m.fromChar + order, toCode := m.toCode + Repeat(m.jokerPosition, |order|))
    ensures forall i :: 0 <= i < |m.chars| ==> n.toCode[i] == i
    ensures forall i :: |m.chars| <= i < |n.toCode| ==> n.toCode[i] == n.jokerPosition
  {
    var a := |m.toCode|;
    forall i | |m.chars| <= i < |n.toCode|
      ensures n.toCode[i] == n.jokerPosition
    {
      if i >= a {
        assert n.toCode[i] == Repeat(m.jokerPosition, |order|)[i - a];
      } else {
        assert n.toCode[i] == m.toCode[i];
      }
    }
    forall i | 0 <= i < |m.chars|
      ensures n.toCode[i] == i
    {
      assert n.toCode[i] == m.toCode[i];
    }
  }

  /** Every character of text i is among the joined characters. */
  lemma {:induction false} JoinedHas(m: Mapper, texts: seq<string>, i: int, c: char)
    requires 0 <= i < |texts| && c in Mapped(m, texts[i])
    ensures c in Joined(m, texts)
    decreases |texts|
  {
    if i > 0 {
      JoinedHas(m, texts[1..], i - 1, c);
    }
  }

  /** After the call, the table lists every mapped character of the texts. */
  lemma AllListed(m: Mapper, texts: seq<string>, order: seq<char>, i: int)
    requires |m.fromChar| == |m.toCode|
    requires Enumerates(order, Missing(m, texts))
    requires 0 <= i < |texts|
    ensures forall c :: c in Mapped(m, texts[i]) ==> c in TextsToLabels(m, texts, order).mapper.fromChar
  {
    var n := TextsToLabels(m, texts, order).mapper;
    var a := |m.fromChar|;
    forall c | c in Mapped(m, texts[i])
      ensures c in n.fromChar
    {
      JoinedHas(m, texts, i, c);
      if c in m.fromChar {
        var j :| 0 <= j < a && m.fromChar[j] == c;
        assert n.fromChar[..a][j] == c;
      } else {
        assert c in n.fromChar[a..];
      }
    }
  }

  /** Every code lies below the size of the initial table; a character of the
      initial table encodes as a position holding it, any other as the joker's
      code 0 (text_mapper.py:33-41). */
  lemma EncodedCodes(m: Mapper, texts: seq<string>, order: seq<char>, i: int, k: int)
    requires Valid(m)
    requires Enumerates(order, Missing(m, texts))
    requires 0 <= i < |texts| && 0 <= k < |Mapped(m, texts[i])|
    ensures var code := TextsToLabels(m, texts, order).labels[i][k];
            var c := Mapped(m, texts[i])[k];
            && 0 <= code < |m.chars|
            && (c in m.chars ==> m.chars[code] == c)
            && (c !in m.chars ==> code == 0)
  {
    var r := TextsToLabels(m, texts, order);
    var c := Mapped(m, texts[i])[k];
    TextsToLabelsValid(m, texts, order);
    AllListed(m, texts, order, i);
    assert r.labels[i][k] == Code(r.mapper, c);
    CodeOf(r.mapper, c);
  }

  /** Encoding the same texts again lists nothing new and gives the same labels. */
  lemma ReencodeStable(m: Mapper, texts: seq<string>, order: seq<char>)
    requires |m.fromChar| == |m.toCode|
    requires Enumerates(order, Missing(m, texts))
    ensures var r := TextsToLabels(m, texts, order);
            && Missing(r.mapper, texts) == {}
            && TextsToLabels(r.mapper, texts, []) == r
  {
    var r := TextsToLabels(m, texts, order);
    var n := r.mapper;
    JoinedSame(m, n, texts);
    forall c | c in Joined(n, texts)
      ensures c in n.fromChar
    {
      JoinedWhich(m, texts, c);
      var i :| 0 <= i < |texts| && c in Mapped(m, texts[i]);
      AllListed(m, texts, order, i);
    }
    assert Missing(n, texts) == {};
    var again := TextsToLabels(n, texts, []);
    forall i | 0 <= i < |texts|
      ensures again.labels[i] == r.labels[i]
    {
      SameMapping(m, n, texts[i]);
    }
  }

  lemma {:induction false} JoinedSame(m: Mapper, n: Mapper, texts: seq<string>)
    requires m.charMapping == n.charMapping
    ensures Joined(m, texts) == Joined(n, texts)
    decreases |texts|
  {
    if |texts| > 0 {
      SameMapping(m, n, texts[0]);
      JoinedSame(m, n, texts[1..]);
    }
  }

  /** A joined character comes from one of the texts. */
  lemma {:induction false} JoinedWhich(m: Mapper, texts: seq<string>, c: char)
    requires c in Joined(m, texts)
    ensures exists i :: 0 <= i < |texts| && c in Mapped(m, texts[i])
    decreases |texts|
  {
    if c !in Mapped(m, texts[0]) {
      JoinedWhich(m, texts[1..], c);
      var i :| 0 <= i < |texts| - 1 && c in Mapped(m, texts[1..][i]);
      assert texts[1..][i] == texts[i + 1];
    }
  }

  /** string_to_labels: the single label of texts_to_labels([s]). */
  function StringToLabels(m: Mapper, s: string, order: seq<char>): (r: (Mapper, seq<int>))
    requires |m.fromChar| == |m.toCode|
    requires Enumerates(order, Missing(m, [s]))
    ensures |r.1| == |Mapped(m, s)|
    ensures r.0.chars == m.chars && |r.0.fromChar| == |r.0.toCode|
  {
    var e := TextsToLabels(m, [s], order);
    (e.mapper, e.labels[0])
  }

  // ---------------------------------------------------------------------
  // labels_to_text

  /** A Python value inside a label list: a built-in int, a numpy integer
      (what np.int32 arrays hold), or an iterable row of values. */
  datatype Value = PyInt(n: int) | NumpyInt(n: int) | Row(items: seq<Value>)

  /** What labels_to_text returns: one string, or one string per row. */
  datatype Text = One(line: string) | Many(lines: seq<string>)

  /** _from_char[l]: Python indexing, negative indices counting from the end. */
  function Lookup(m: Mapper, v: Value): (r: Result<char>)
    ensures r.Ok? <==> !v.Row? && -|m.fromChar| <= v.n < |m.fromChar|
    ensures r.Ok? && 0 <= v.n ==> r.value == m.fromChar[v.n]
    ensures r.Ok? && v.n < 0 ==> r.value == m.fromChar[|m.fromChar| + v.n]
    ensures r.Err? ==> r.error == (if v.Row? then NotAnIndex else CodeOutOfRange)
  {
    match v
    case Row(_) => Err(NotAnIndex)
    case PyInt(n) => (match Get(m.fromChar, n) case Some(c) => Ok(c) case None => Err(CodeOutOfRange))
    case NumpyInt(n) => (match Get(m.fromChar, n) case Some(c) => Ok(c) case None => Err(CodeOutOfRange))
  }

  /** ''.join([self._from_char[l] for l in row]): the first failing index raises. */
  function DecodeRow(m: Mapper, row: seq<Value>): (r: Result<string>)
    ensures r.Ok? <==> forall i :: 0 <= i < |row| ==> Lookup(m, row[i]).Ok?
    ensures r.Ok? ==> |r.value| == |row|
    ensures r.Ok? ==> forall i :: 0 <= i < |row| ==> Lookup(m, row[i]) == Ok(r.value[i])
    decreases |row|
  {
    if |row| == 0 then Ok([])
    else
      var c :- Lookup(m, row[0]);
      var rest :- DecodeRow(m, row[1..]);
      Ok([c] + rest)
  }

  /** The list comprehension over the rows of a 2-D label list. */
  function DecodeRows(m: Mapper, rows: seq<Value>): (r: Result<seq<string>>)
    ensures r.Ok? <==> forall i :: 0 <= i < |rows| ==> rows[i].Row? && DecodeRow(m, rows[i].items).Ok?
    ensures r.Ok? ==> |r.value| == |rows|
    ensures r.Ok? ==> forall i :: 0 <= i < |rows| ==> DecodeRow(m, rows[i].items) == Ok(r.value[i])
    decreases |rows|
  {
    if |rows| == 0 then Ok([])
    else if !rows[0].Row? then Err(NotIterable)
    else
      var line :- DecodeRow(m, rows[0].items);
      var rest :- DecodeRows(m, rows[1..]);
      Ok([line] + rest)
  }

  /** labels_to_text: dispatch on the type of the first element. */
  function LabelsToText(m: Mapper, labels: seq<Value>): (r: Result<Text>)
    ensures |labels| == 0 ==> r == Err(NoLabels)
    ensures |labels| > 0 && labels[0].NumpyInt? ==> r == Err(UnrecognizedLabels)
    ensures |labels| > 0 && labels[0].PyInt? ==>
              r == (match DecodeRow(m, labels) case Ok(s) => Ok(One(s)) case Err(e) => Err(e))
    ensures |labels| > 0 && labels[0].Row? ==>
              (r.Ok? <==> DecodeRows(m, labels).Ok?) && (r.Ok? ==> r == Ok(Many(DecodeRows(m, labels).value)))
  {
    if |labels| == 0 then Err(NoLabels)
    else
      match labels[0]
      case PyInt(_) =>
        var line :- DecodeRow(m, labels);
        Ok(One(line))
      case Row(_) =>
        var lines :- DecodeRows(m, labels);
        Ok(Many(lines))
      case NumpyInt(_) => Err(UnrecognizedLabels)
  }

  // ---------------------------------------------------------------------
  // Round trips

  /** The text with every character outside the initial table replaced by the joker. */
  function Masked(m: Mapper, s: string): (r: string)
    ensures |r| == |s|
  {
    seq(|s|, i requires 0 <= i < |s| => if s[i] in m.chars then s[i] else m.joker)
  }

  /** A label as a list of Python ints, or as an np.int32 array. */
  function AsInts(codes: seq<int>): (r: seq<Value>)
    ensures |r| == |codes|
  {
    seq(|codes|, i requires 0 <= i < |codes| => PyInt(codes[i]))
  }

  function AsArray(codes: seq<int>): (r: seq<Value>)
    ensures |r| == |codes|
  {
    seq(|codes|, i requires 0 <= i < |codes| => NumpyInt(codes[i]))
  }

  /** Decoding reads each code back as the character of the initial table it
      names, or as the joker. */
  lemma DecodeLabel(m: Mapper, texts: seq<string>, order: seq<char>, i: int, row: seq<Value>)
    requires Valid(m)
    requires Enumerates(order, Missing(m, texts))
    requires 0 <= i < |texts|
    requires row == AsInts(TextsToLabels(m, texts, order).labels[i])
             || row == AsArray(TextsToLabels(m, texts, order).labels[i])
    ensures DecodeRow(TextsToLabels(m, texts, order).mapper, row) == Ok(Masked(m, Mapped(m, texts[i])))
  {
    var r := TextsToLabels(m, texts, order);
    var n := r.mapper;
    var s := Mapped(m, texts[i]);
    var want := Masked(m, s);
    TextsToLabelsValid(m, texts, order);
    forall k | 0 <= k < |row|
      ensures Lookup(n, row[k]) == Ok(want[k])
    {
      EncodedCodes(m, texts, order, i, k);
      var code := r.labels[i][k];
      assert row[k].n == code && !row[k].Row?;
      assert n.fromChar[code] == n.chars[code];
    }
    DecodeAll(n, row, want);
  }

  /** A row whose every lookup succeeds decodes to those characters. */
  lemma {:induction false} DecodeAll(m: Mapper, row: seq<Value>, s: string)
    requires |row| == |s|
    requires forall k :: 0 <= k < |row| ==> Lookup(m, row[k]) == Ok(s[k])
    ensures DecodeRow(m, row) == Ok(s)
    decreases |row|
  {
    if |row| > 0 {
      DecodeAll(m, row[1..], s[1..]);
      assert s == [s[0]] + s[1..];
    }
  }

  /** The round trip of a list of texts: decoding the list of int32 arrays
      texts_to_labels returns gives each mapped text back, with the characters
      outside the initial table shown as the joker (text_mapper.py:41, 49-53). */
  lemma TextsRoundTrip(m: Mapper, texts: seq<string>, order: seq<char>)
    requires Valid(m)
    requires Enumerates(order, Missing(m, texts))
    requires |texts| > 0
    ensures var r := TextsToLabels(m, texts, order);
            var rows := seq(|texts|, i requires 0 <= i < |texts| => Row(AsArray(r.labels[i])));
            LabelsToText(r.mapper, rows)
              == Ok(Many(seq(|texts|, i requires 0 <= i < |texts| => Masked(m, Mapped(m, texts[i])))))
  {
    var r := TextsToLabels(m, texts, order);
    var rows := seq(|texts|, i requires 0 <= i < |texts| => Row(AsArray(r.labels[i])));
    var want := seq(|texts|, i requires 0 <= i < |texts| => Masked(m, Mapped(m, texts[i])));
    forall i | 0 <= i < |texts|
      ensures rows[i].Row? && DecodeRow(r.mapper, rows[i].items) == Ok(want[i])
    {
      DecodeLabel(m, texts, order, i, rows[i].items);
    }
    DecodeRowsAll(r.mapper, rows, want);
  }

  lemma {:induction false} DecodeRowsAll(m: Mapper, rows: seq<Value>, lines: seq<string>)
    requires |rows| == |lines|
    requires forall k :: 0 <= k < |rows| ==> rows[k].Row? && DecodeRow(m, rows[k].items) == Ok(lines[k])
    ensures DecodeRows(m, rows) == Ok(lines)
    decreases |rows|
  {
    if |rows| > 0 {
      DecodeRowsAll(m, rows[1..], lines[1..]);
      assert lines == [lines[0]] + lines[1..];
    }
  }

  /** Without a substitution map and with every character in the initial
      table, a label given as Python ints decodes to its text exactly. */
  lemma PlainRoundTrip(m: Mapper, s: string, order: seq<char>)
    requires Valid(m) && m.charMapping == map[]
    requires forall k :: 0 <= k < |s| ==> s[k] in m.chars
    requires Enumerates(order, Missing(m, [s]))
    requires |s| > 0
    ensures var r := StringToLabels(m, s, order);
            LabelsToText(r.0, AsInts(r.1)) == Ok(One(s))
  {
    var e := TextsToLabels(m, [s], order);
    var row := AsInts(e.labels[0]);
    MapTextIdentity(m, s);
    DecodeLabel(m, [s], order, 0, row);
    assert Masked(m, s) == s;
    assert row[0].PyInt?;
  }

  // ---------------------------------------------------------------------
  // One-dimensional arrays

  /** string_to_labels returns an np.int32 array, whose first element is not a
      built-in int and not iterable, so labels_to_text rejects it. */
  lemma ArrayLabelRejected(m: Mapper, s: string, order: seq<char>)
    requires Valid(m)
    requires Enumerates(order, Missing(m, [s]))
    requires |Mapped(m, s)| > 0
    ensures var r := StringToLabels(m, s, order);
            LabelsToText(r.0, AsArray(r.1)) == Err(UnrecognizedLabels)
  {
    var r := StringToLabels(m, s, order);
    assert AsArray(r.1)[0].NumpyInt?;
  }

  /** labels_to_text with numpy integers accepted wherever built-in ints are. */
  function LabelsToTextFixed(m: Mapper, labels: seq<Value>): (r: Result<Text>)
    ensures |labels| == 0 ==> r == Err(NoLabels)
    ensures |labels| > 0 && !labels[0].NumpyInt? ==> r == LabelsToText(m, labels)
    ensures |labels| > 0 && !labels[0].Row? ==>
              (r.Ok? <==> DecodeRow(m, labels).Ok?) && (r.Ok? ==> r == Ok(One(DecodeRow(m, labels).value)))
  {
    if |labels| == 0 then Err(NoLabels)
    else if labels[0].Row? then LabelsToText(m, labels)
    else
      var line :- DecodeRow(m, labels);
      Ok(One(line))
  }

  /** With the correction, a label from string_to_labels decodes back to its
      mapped text, characters outside the initial table shown as the joker. */
  lemma FixedStringRoundTrip(m: Mapper, s: string, order: seq<char>)
    requires Valid(m)
    requires Enumerates(order, Missing(m, [s]))
    requires |Mapped(m, s)| > 0
    ensures var r := StringToLabels(m, s, order);
            LabelsToTextFixed(r.0, AsArray(r.1)) == Ok(One(Masked(m, Mapped(m, s))))
  {
    var e := TextsToLabels(m, [s], order);
    var row := AsArray(e.labels[0]);
    DecodeLabel(m, [s], order, 0, row);
    assert row[0].NumpyInt?;
  }
}
