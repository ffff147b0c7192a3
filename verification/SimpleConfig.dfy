/** The configuration: text compared without regard to case, an index over the settings of each section,
    and looking a setting up. */
module SimpleConfig {
  import opened Basics
  import opened Octets

  type Text = seq<Byte>

  // ---- comparing text ------------------------------------------------------------------------

  /** Letters in lower case, and both separators of paths alike. */
  function Normalise(b: Byte): Byte {
    if 65 <= b <= 90 then b + 32 else if b == 47 then 92 else b
  }

  predicate Letters(a: Byte, b: Byte) {
    65 <= a <= 90 && b == a + 32
  }

  /** Bytes that compare alike: equal ones, a letter in both cases, and the two separators. */
  lemma NormalisedAlike(a: Byte, b: Byte)
    ensures Normalise(a) == Normalise(b) <==> a == b || Letters(a, b) || Letters(b, a) || (a == 47 && b == 92) || (a == 92 && b == 47)
  {
  }

  /** What two texts are compared by: their bytes up to the first NUL, normalised. */
  function Key(s: Text): Text {
    if s == [] || s[0] == 0 then [] else [Normalise(s[0])] + Key(s[1..])
  }

  ghost predicate Less(a: Text, b: Text) {
    Bytes(Key(a), Key(b)) < 0
  }

  /** Neither is less than the other. */
  ghost predicate Equivalent(a: Text, b: Text) {
    !Less(a, b) && !Less(b, a)
  }

  /** `Less` is a strict weak order, and its ties are the texts that are equal once normalised. */
  lemma LessIsStrictWeakOrder(a: Text, b: Text, c: Text)
    ensures !Less(a, a)
    ensures Less(a, b) && Less(b, c) ==> Less(a, c)
    ensures Equivalent(a, b) && Equivalent(b, c) ==> Equivalent(a, c)
    ensures Equivalent(a, b) <==> Key(a) == Key(b)
  {
    BytesOrder(Key(a), Key(a));
    BytesOrder(Key(a), Key(b));
    BytesOrder(Key(b), Key(a));
    BytesOrder(Key(b), Key(c));
    BytesOrder(Key(c), Key(b));
    BytesOrder(Key(a), Key(c));
    BytesOrder(Key(c), Key(a));
    if Less(a, b) && Less(b, c) { BytesTransitive(Key(a), Key(b), Key(c)); }
  }

  /** The byte at `i` of a terminated text. */
  function At(s: Text, i: nat): Byte {
    if i < |s| then s[i] else 0
  }

  lemma KeyStep(s: Text, i: nat)
    requires i <= |s|
    ensures At(s, i) == 0 ==> Key(s[i..]) == []
    ensures At(s, i) != 0 ==> i < |s| && Key(s[i..]) == [Normalise(s[i])] + Key(s[i + 1..])
  {
    if i < |s| { assert s[i..][1..] == s[i + 1..]; }
  }

  /** The order of two results of a comparison: the sign alone matters. */
  ghost predicate SameSign(r: int, q: int) {
    (r < 0 <==> q < 0) && (r == 0 <==> q == 0)
  }

  /** The comparison of terminated texts. */
  method Strcasecmp(ls: Text, rs: Text) returns (d: int)
    ensures SameSign(d, Bytes(Key(ls), Key(rs)))
  {
    var i := 0;
    var l, r := Normalise(At(ls, i)), Normalise(At(rs, i));
    KeyStep(ls, 0);
    KeyStep(rs, 0);
    assert ls[0..] == ls && rs[0..] == rs;
    while l != 0 && l == r
      invariant i <= |ls| && i <= |rs| && l == Normalise(At(ls, i)) && r == Normalise(At(rs, i))
      invariant Bytes(Key(ls[i..]), Key(rs[i..])) == Bytes(Key(ls), Key(rs))
      decreases |ls| - i
    {
      KeyStep(ls, i);
      KeyStep(rs, i);
      i := i + 1;
      l, r := Normalise(At(ls, i)), Normalise(At(rs, i));
    }
    KeyStep(ls, i);
    KeyStep(rs, i);
    return l as int - r as int;
  }

  /** The comparison of texts given with their lengths, and of these with terminated ones: the same
      answer. */
  method StrcasecmpView(ls: Text, rs: Text) returns (d: int)
    ensures SameSign(d, Bytes(Key(ls), Key(rs)))
  {
    var i := 0;
    assert ls[0..] == ls && rs[0..] == rs;
    while true
      invariant i <= |ls| && i <= |rs|
      invariant Bytes(Key(ls[i..]), Key(rs[i..])) == Bytes(Key(ls), Key(rs))
      decreases |ls| - i
    {
      KeyStep(ls, i);
      KeyStep(rs, i);
      var lc, rc := At(ls, i), At(rs, i);
      if lc != rc {
        var l, r := Normalise(lc), Normalise(rc);
        if l != r {
          return l as int - r as int;
        }
      }
      if lc == 0 {
        return 0;
      }
      i := i + 1;
    }
  }

  // ---- ordered maps -------------------------------------------------------------------------------------------------------

  /** An entry of a map ordered by `Less`, or of a list. */
  datatype Item<T> = Item(key: Text, value: T)

  type Setting = Item<Text>

  /** A linear scan: the value of the first element with an equivalent key. */
  function First<T>(e: seq<Item<T>>, key: Text): Option<T> {
    if e == [] then None
    else
      var r := First(e[..|e| - 1], key);
      if r.Some? then r else if Key(e[|e| - 1].key) == Key(key) then Some(e[|e| - 1].value) else None
  }

  ghost predicate Ascending<T>(c: seq<Item<T>>) {
    forall i, j :: 0 <= i < j < |c| ==> Less(c[i].key, c[j].key)
  }

  /** Looking up in the index gives what a linear scan of the elements gives. */
  ghost predicate Indexes<T>(c: seq<Item<T>>, e: seq<Item<T>>) {
    forall k :: First(c, k) == First(e, k)
  }

  lemma {:induction false} FirstIsUnique<T>(c: seq<Item<T>>, k: Text, i: nat)
    requires i < |c| && Key(c[i].key) == Key(k) && forall j :: 0 <= j < i ==> Key(c[j].key) != Key(k)
    ensures First(c, k) == Some(c[i].value)
  {
    if i < |c| - 1 {
      FirstIsUnique(c[..|c| - 1], k, i);
    } else {
      NoFirst(c[..i], k);
    }
  }

  lemma {:induction false} NoFirst<T>(c: seq<Item<T>>, k: Text)
    requires forall j :: 0 <= j < |c| ==> Key(c[j].key) != Key(k)
    ensures First(c, k) == None
  {
    if c != [] { NoFirst(c[..|c| - 1], k); }
  }

  /** On an ascending index every key stands once. */
  lemma AscendingFirst<T>(c: seq<Item<T>>, k: Text, i: nat)
    requires Ascending(c) && i < |c| && Key(c[i].key) == Key(k)
    ensures First(c, k) == Some(c[i].value)
  {
    forall j | 0 <= j < i ensures Key(c[j].key) != Key(k) {
      LessIsStrictWeakOrder(c[j].key, c[i].key, k);
    }
    FirstIsUnique(c, k, i);
  }

  /** Where `key` belongs in the index. */
  method LowerBound<T>(c: seq<Item<T>>, key: Text) returns (p: nat)
    requires Ascending(c)
    ensures p <= |c|
    ensures forall i :: 0 <= i < p ==> Less(c[i].key, key)
    ensures forall i :: p <= i < |c| ==> !Less(c[i].key, key)
  {
    var hi := |c|;
    p := 0;
    while p < hi
      invariant p <= hi <= |c|
      invariant forall i :: 0 <= i < p ==> Less(c[i].key, key)
      invariant forall i :: hi <= i < |c| ==> !Less(c[i].key, key)
    {
      var mid := (p + hi) / 2;
      var d := StrcasecmpView(c[mid].key, key);
      if d < 0 {
        forall i | 0 <= i < mid ensures Less(c[i].key, key) {
          LessIsStrictWeakOrder(c[i].key, c[mid].key, key);
        }
        p := mid + 1;
      } else {
        forall i | mid < i < |c| ensures !Less(c[i].key, key) {
          LessIsStrictWeakOrder(c[mid].key, c[i].key, key);
        }
        hi := mid;
      }
    }
  }

  /** `find`: the position of an equivalent key. */
  method Find<T>(c: seq<Item<T>>, key: Text) returns (p: nat, found: bool)
    requires Ascending(c)
    ensures p <= |c|
    ensures forall i :: 0 <= i < p ==> Less(c[i].key, key)
    ensures found ==> p < |c| && Key(c[p].key) == Key(key)
    ensures !found ==> forall i :: p <= i < |c| ==> Less(key, c[i].key)
    ensures First(c, key) == if found then Some(c[p].value) else None
  {
    p := LowerBound(c, key);
    found := false;
    if p < |c| {
      var d := StrcasecmpView(key, c[p].key);
      found := d >= 0;
      LessIsStrictWeakOrder(c[p].key, key, key);
    }
    if found {
      AscendingFirst(c, key, p);
    } else {
      forall i | 0 <= i < |c| ensures Key(c[i].key) != Key(key) && (p <= i ==> Less(key, c[i].key)) {
        LessIsStrictWeakOrder(c[i].key, key, key);
        if p < i { LessIsStrictWeakOrder(key, c[p].key, c[i].key); }
      }
      NoFirst(c, key);
    }
  }

  /** What a new entry, put where it belongs, changes. */
  lemma InsertedFirst<T>(c: seq<Item<T>>, p: nat, x: Item<T>, k: Text)
    requires Ascending(c) && p <= |c|
    requires forall i :: 0 <= i < p ==> Less(c[i].key, x.key)
    requires forall i :: p <= i < |c| ==> Less(x.key, c[i].key)
    ensures First(c[..p] + [x] + c[p..], k) == if Key(x.key) == Key(k) then Some(x.value) else First(c, k)
    ensures Key(x.key) == Key(k) ==> First(c, k) == None
  {
    if Key(x.key) == Key(k) {
      forall j | 0 <= j < |c| ensures Key(c[j].key) != Key(k) {
        LessIsStrictWeakOrder(c[j].key, x.key, k);
      }
      NoFirst(c, k);
      FirstIsUnique(c[..p] + [x] + c[p..], k, p);
    } else {
      InsertedElsewhere(c, p, x, k);
    }
  }

  lemma InsertedAscends<T>(c: seq<Item<T>>, p: nat, x: Item<T>)
    requires Ascending(c) && p <= |c|
    requires forall i :: 0 <= i < p ==> Less(c[i].key, x.key)
    requires forall i :: p <= i < |c| ==> Less(x.key, c[i].key)
    ensures Ascending(c[..p] + [x] + c[p..])
  {
    var d := c[..p] + [x] + c[p..];
    assert forall j :: 0 <= j < |d| ==> d[j] == if j < p then c[j] else if j == p then x else c[j - 1];
  }

  /** An index keeps up with a new setting. */
  lemma InsertIndexes<T>(c: seq<Item<T>>, e: seq<Item<T>>, p: nat, x: Item<T>)
    requires Ascending(c) && Indexes(c, e) && p <= |c|
    requires forall i :: 0 <= i < p ==> Less(c[i].key, x.key)
    requires forall i :: p <= i < |c| ==> Less(x.key, c[i].key)
    ensures Indexes(c[..p] + [x] + c[p..], e + [x])
  {
    forall k ensures First(c[..p] + [x] + c[p..], k) == First(e + [x], k) {
      FirstOfMore(e, x, k);
      InsertedFirst(c, p, x, k);
      assert First(c, k) == First(e, k);
    }
  }

  lemma FirstOfMore<T>(e: seq<Item<T>>, x: Item<T>, k: Text)
    ensures First(e + [x], k) == if First(e, k).Some? then First(e, k) else if Key(x.key) == Key(k) then Some(x.value) else None
  {
    assert (e + [x])[..|e|] == e;
  }

  lemma {:induction false} InsertedElsewhere<T>(c: seq<Item<T>>, p: nat, x: Item<T>, k: Text)
    requires p <= |c| && Key(x.key) != Key(k)
    ensures First(c[..p] + [x] + c[p..], k) == First(c, k)
  {
    var d := c[..p] + [x] + c[p..];
    if p == |c| {
      assert d == c + [x];
      FirstOfMore(c, x, k);
    } else {
      var pre := c[..|c| - 1];
      assert d[..|d| - 1] == pre[..p] + [x] + pre[p..];
      InsertedElsewhere(pre, p, x, k);
    }
  }

  // ---- the configuration ---------------------------------------------------------------------

  /** The settings of one section: in the order they came, and indexed. */
  class Values {
    var collection: seq<Setting>
    var elements: seq<Setting>

    ghost predicate Valid()
      reads this
    {
      Ascending(collection) && Indexes(collection, elements)
    }

    constructor ()
      ensures Valid() && elements == []
    {
      collection, elements := [], [];
    }

    /** A key that is there already keeps its value in the index. */
    method Insert(key: Text, value: Text)
      requires Valid()
      modifies this
      ensures Valid() && elements == old(elements) + [Item(key, value)]
    {
      var x := Item(key, value);
      var p, found := Find(collection, key);
      ghost var e := elements;
      if !found {
        InsertIndexes(collection, elements, p, x);
        InsertedAscends(collection, p, x);
        collection := collection[..p] + [x] + collection[p..];
      } else {
        forall k ensures First(collection, k) == First(e + [x], k) {
          FirstOfMore(e, x, k);
          assert First(collection, k) == First(e, k);
          if Key(x.key) == Key(k) {
            AscendingFirst(collection, k, p);
          }
        }
      }
      elements := elements + [x];
    }

    method Get(key: Text) returns (r: Option<Text>)
      requires Valid()
      ensures r == First(elements, key)
    {
      var p, found := Find(collection, key);
      assert First(collection, key) == First(elements, key);
      r := if found then Some(collection[p].value) else None;
    }
  }

  /** A setting, and the section it was given in. */
  datatype Entry = Entry(section: Text, key: Text, value: Text)

  /** The settings given in any section equivalent to `section`, in order. */
  function Merged(log: seq<Entry>, section: Text): seq<Setting> {
    if log == [] then []
    else
      var e := log[|log| - 1];
      Merged(log[..|log| - 1], section) + if Key(e.section) == Key(section) then [Item(e.key, e.value)] else []
  }

  // ---- lines ---------------------------------------------------------------------------------

  const HASH: Byte := 35
  const SPACE: Byte := 32
  const EQUALS: Byte := 61
  const OPEN: Byte := 91
  const CLOSE: Byte := 93

  predicate Blank(b: Byte) {
    b == SPACE || 9 <= b <= 13
  }

  /** `text` without the blanks at its end. */
  function RTrim(text: Text): (r: Text)
    ensures r <= text && (r != [] ==> !Blank(r[|r| - 1]))
    ensures text != [] && !Blank(text[|text| - 1]) ==> r == text
  {
    if text == [] || !Blank(text[|text| - 1]) then text else RTrim(text[..|text| - 1])
  }

  /** `text` without the blanks at its start. */
  function LTrim(text: Text): (r: Text)
    ensures |r| <= |text| && (r != [] ==> !Blank(r[0]))
    ensures text != [] && !Blank(text[0]) ==> r == text
  {
    if text == [] || !Blank(text[0]) then text else LTrim(text[1..])
  }

  function Trim(text: Text): (r: Text)
    ensures |r| <= |text|
  {
    LTrim(RTrim(text))
  }

  /** Where one of two bytes stands first; the length of the text when none does. */
  function FirstOf(text: Text, a: Byte, b: Byte): (i: nat)
    ensures i <= |text| && (i < |text| ==> text[i] == a || text[i] == b)
    ensures forall j :: 0 <= j < i ==> text[j] != a && text[j] != b
  {
    if text == [] || text[0] == a || text[0] == b then 0 else 1 + FirstOf(text[1..], a, b)
  }

  /** What a line of a configuration says. */
  datatype Line = Header(name: Text) | BadHeader | Assign(key: Text, value: Text) | Nothing

  /** A line without its comment and the blanks at its end. */
  function Stripped(text: Text): Text {
    RTrim(text[..FirstOf(text, HASH, HASH)])
  }

  /** A key ends at the first equals sign, unless a space comes before it: then the whole line is the key. */
  function Said(line: Text): Line {
    if line == [] then Nothing
    else if line[0] == OPEN then
      if line[|line| - 1] != CLOSE then BadHeader else Header(Trim(line[1..|line| - 1]))
    else
      var eq := FirstOf(line, SPACE, EQUALS);
      if eq == |line| || line[eq] == SPACE then Assign(LTrim(line), [])
      else
        var key := Trim(line[..eq]);
        if key == [] then Nothing else Assign(key, LTrim(line[eq + 1..]))
  }

  function Parse(text: Text): Line {
    Said(Stripped(text))
  }

  function ParseAll(texts: seq<Text>): (lines: seq<Line>)
    ensures |lines| == |texts| && forall i :: 0 <= i < |texts| ==> lines[i] == Parse(texts[i])
  {
    seq(|texts|, i requires 0 <= i < |texts| => Parse(texts[i]))
  }

  /** Text that can stand in a line: no comment sign, no blanks at the ends. */
  ghost predicate Clean(text: Text) {
    HASH !in text && (text != [] ==> !Blank(text[0]) && !Blank(text[|text| - 1]))
  }

  /** Tab, line feed, vertical tab, form feed, return and space. */
  lemma BlankIs(b: Byte)
    ensures Blank(b) <==> b in [9, 10, 11, 12, 13, 32]
  {
  }

  ghost predicate Blanks(text: Text) {
    forall i :: 0 <= i < |text| ==> Blank(text[i])
  }

  lemma {:induction false} LTrimBlanks(blanks: Text, text: Text)
    requires Blanks(blanks)
    ensures LTrim(blanks + text) == LTrim(text)
  {
    if blanks == [] {
      assert blanks + text == text;
    } else {
      assert (blanks + text)[1..] == blanks[1..] + text;
      LTrimBlanks(blanks[1..], text);
    }
  }

  lemma {:induction false} RTrimBlanks(text: Text, blanks: Text)
    requires Blanks(blanks)
    ensures RTrim(text + blanks) == RTrim(text)
  {
    if blanks == [] {
      assert text + blanks == text;
    } else {
      var last := |blanks| - 1;
      assert (text + blanks)[..|text| + last] == text + blanks[..last];
      RTrimBlanks(text, blanks[..last]);
    }
  }

  /** Trimming leaves nothing of leading blanks. */
  lemma TrimIsShort(blanks: Text, text: Text)
    requires Blanks(blanks)
    ensures |Trim(blanks + text)| <= |text|
  {
    var r := RTrim(blanks + text);
    if |r| > |blanks| {
      assert r == blanks + r[|blanks|..];
      LTrimBlanks(blanks, r[|blanks|..]);
    } else {
      assert r == blanks[..|r|];
    }
  }

  lemma TrimPadded(lead: Text, key: Text, a: Text)
    requires Blanks(lead) && Blanks(a) && Clean(key)
    ensures Trim(lead + key + a) == key
  {
    RTrimBlanks(lead + key, a);
    if key == [] {
      assert lead + key == [] + lead;
      RTrimBlanks([], lead);
    } else {
      assert (lead + key)[|lead + key| - 1] == key[|key| - 1];
      LTrimBlanks(lead, key);
    }
  }

  /** A setting as it may be written: blanks in front, around the equals sign or nowhere. */
  function Written(lead: Text, key: Text, a: Text, b: Text, value: Text): Text {
    lead + key + a + [EQUALS] + (b + value)
  }

  /** Nothing of such a line is dropped at its end, and its front blanks can be. */
  lemma WrittenStays(lead: Text, key: Text, a: Text, b: Text, value: Text)
    requires Blanks(lead) && Blanks(a) && Blanks(b) && Clean(key) && Clean(value) && key != [] && (value != [] || b == [])
    ensures var line := Written(lead, key, a, b, value);
            && Stripped(line) == line
            && LTrim(line) == key + (a + [EQUALS] + (b + value))
  {
    var line, rest := Written(lead, key, a, b, value), key + (a + [EQUALS] + (b + value));
    assert HASH !in lead && HASH !in a && HASH !in b;
    assert HASH !in line;
    assert line[..FirstOf(line, HASH, HASH)] == line;
    assert line[|line| - 1] == if value == [] then EQUALS else value[|value| - 1];
    assert line == lead + rest && rest[0] == key[0];
    LTrimBlanks(lead, rest);
  }

  /** Where its key ends. */
  lemma WrittenSplits(lead: Text, key: Text, a: Text, b: Text, value: Text)
    requires Blanks(lead) && Blanks(a) && key != []
    ensures var line, pre := Written(lead, key, a, b, value), lead + key + a;
            var eq := FirstOf(line, SPACE, EQUALS);
            && line[0] == pre[0] && eq < |line|
            && (EQUALS !in key && SPACE in pre ==> line[eq] == SPACE)
            && (EQUALS !in key && SPACE !in pre ==> line[eq] == EQUALS && line[..eq] == pre && line[eq + 1..] == b + value)
            && (EQUALS in key && line[eq] == EQUALS ==> line[..eq] == lead + line[|lead|..eq] && eq < |lead| + |key|)
  {
    var line, pre := Written(lead, key, a, b, value), lead + key + a;
    var eq := FirstOf(line, SPACE, EQUALS);
    assert line[..|pre|] == pre && line[|pre|] == EQUALS && line[|pre| + 1..] == b + value;
    assert EQUALS !in lead && EQUALS !in a;
    assert forall i :: 0 <= i < |pre| ==> line[i] == pre[i];
    if EQUALS !in key {
      assert EQUALS !in pre;
      if SPACE in pre {
        var i :| 0 <= i < |pre| && pre[i] == SPACE;
        assert eq <= i;
      }
    } else {
      var j :| 0 <= j < |key| && key[j] == EQUALS;
      assert line[|lead| + j] == EQUALS && eq <= |lead| + j;
      if line[eq] == EQUALS {
        assert eq >= |lead|;
        assert line[..|lead|] == lead;
      }
    }
  }

  /** What a setting with blanks around its parts reads as: itself, exactly when there is no space anywhere in
      front of its equals sign, no other such sign in its key, and it does not start like a header.  With a
      space there the whole line is a key without a value. */
  lemma WrittenReadsBack(lead: Text, key: Text, a: Text, b: Text, value: Text)
    requires Blanks(lead) && Blanks(a) && Blanks(b) && Clean(key) && Clean(value) && key != [] && (value != [] || b == [])
    ensures var line, pre := Written(lead, key, a, b, value), lead + key + a;
            && (Parse(line) == Assign(key, value) <==> SPACE !in pre && EQUALS !in key && pre[0] != OPEN)
            && (SPACE in pre && EQUALS !in key && pre[0] != OPEN ==> Parse(line) == Assign(LTrim(line), []))
  {
    hide LTrim;
    var line := Written(lead, key, a, b, value);
    WrittenStays(lead, key, a, b, value);
    WrittenSplits(lead, key, a, b, value);
    TrimPadded(lead, key, a);
    LTrimBlanks(b, value);
    var eq := FirstOf(line, SPACE, EQUALS);
    if EQUALS in key && line[eq] == EQUALS {
      TrimIsShort(lead, line[|lead|..eq]);
    }
  }

  const NAME: Text := [110, 97, 109, 101]
  const V: Text := [118]

  /** `name = v` is a key, and nothing else. */
  lemma SpacedSettingIsAKey()
    ensures var line := NAME + [32, 61, 32] + V; Parse(line) == Assign(line, [])
  {
    var line := Written([], NAME, [SPACE], [SPACE], V);
    assert line == NAME + [32, 61, 32] + V;
    assert [] + NAME + [SPACE] == NAME + [SPACE] && (NAME + [SPACE])[4] == SPACE;
    WrittenReadsBack([], NAME, [SPACE], [SPACE], V);
  }

  /** `[`, a name with blanks around it, and `]` start the section of that name; without the `]` at its end such a
      line is an error. */
  lemma HeadersAreRead(a: Text, name: Text, b: Text)
    requires Blanks(a) && Blanks(b) && Clean(name)
    ensures Parse([91] + (a + name + b) + [93]) == Header(name)
    ensures (name != [] ==> name[|name| - 1] != 93) ==> Parse([91] + (a + name + b)) == BadHeader
  {
    var inner := a + name + b;
    var line, open := [91] + inner + [93], [91] + inner;
    assert HASH !in a && HASH !in b;
    assert HASH !in inner;
    FirstHash(line, []);
    FirstHash(open, []);
    assert line + [] == line && open + [] == open;
    assert line[1..|line| - 1] == inner;
    TrimPadded(a, name, b);
    OpenEnds(a, name, b);
  }

  lemma OpenEnds(a: Text, name: Text, b: Text)
    requires Blanks(a) && Blanks(b) && Clean(name)
    ensures RTrim([91] + (a + name + b)) == if name == [] then [91] else [91] + (a + name)
  {
    hide RTrim, Blank;
    if name == [] {
      assert a + name + b == a + b;
      RTrimBlanks([91], a + b);
      OneNotBlank();
    } else {
      NameEnds(a, name);
      assert [91] + (a + name + b) == [91] + (a + name) + b;
      RTrimBlanks([91] + (a + name), b);
    }
  }

  lemma OneNotBlank()
    ensures RTrim([91]) == [91]
  {
  }

  lemma NameEnds(a: Text, name: Text)
    requires name != [] && !Blank(name[|name| - 1])
    ensures RTrim([91] + (a + name)) == [91] + (a + name)
  {
    var front := [91] + (a + name);
    assert front[|front| - 1] == name[|name| - 1];
  }

  lemma FirstHash(text: Text, comment: Text)
    requires HASH !in text && (comment == [] || comment[0] == HASH)
    ensures (text + comment)[..FirstOf(text + comment, HASH, HASH)] == text
  {
    var all := text + comment;
    assert forall i :: 0 <= i < |text| ==> all[i] == text[i];
    assert comment != [] ==> all[|text|] == HASH;
  }

  /** Blanks at the end of a line, and a comment behind them, change nothing. */
  lemma TailsAreDropped(text: Text, blanks: Text, comment: Text)
    requires HASH !in text && Blanks(blanks) && (comment == [] || comment[0] == HASH)
    ensures Parse(text + blanks + comment) == Parse(text)
  {
    assert HASH !in text + blanks;
    FirstHash(text + blanks, comment);
    FirstHash(text, []);
    assert text + [] == text;
    RTrimBlanks(text, blanks);
  }

  function SectionAfter(line: Line, section: Text): Text {
    if line.Header? then line.name else section
  }

  /** The section that a line after `lines` belongs to. */
  function SectionAt(lines: seq<Line>, section: Text): Text {
    if lines == [] then section else SectionAfter(lines[|lines| - 1], SectionAt(lines[..|lines| - 1], section))
  }

  function EntryOf(line: Line, section: Text): seq<Entry> {
    if line.Assign? then [Entry(section, line.key, line.value)] else []
  }

  /** What the lines say, the first of them in section `section`. */
  function Entries(lines: seq<Line>, section: Text): seq<Entry> {
    if lines == [] then []
    else
      var pre := lines[..|lines| - 1];
      Entries(pre, section) + EntryOf(lines[|lines| - 1], SectionAt(pre, section))
  }

  /** A line belongs to the section of the last header before it. */
  lemma {:induction false} SectionIsLastHeader(lines: seq<Line>, section: Text, h: nat)
    requires h < |lines| && lines[h].Header? && forall i :: h < i < |lines| ==> !lines[i].Header?
    ensures SectionAt(lines, section) == lines[h].name
  {
    if h < |lines| - 1 { SectionIsLastHeader(lines[..|lines| - 1], section, h); }
  }

  lemma {:induction false} SectionWithoutHeader(lines: seq<Line>, section: Text)
    requires forall i :: 0 <= i < |lines| ==> !lines[i].Header?
    ensures SectionAt(lines, section) == section
  {
    if lines != [] { SectionWithoutHeader(lines[..|lines| - 1], section); }
  }

  /** What a file says are the settings of its lines, in order, each with the section of its line. */
  lemma {:induction false} EntriesAreSettings(lines: seq<Line>, section: Text, i: nat)
    requires i < |lines| && lines[i].Assign?
    ensures var n := |Entries(lines[..i], section)|;
            n < |Entries(lines, section)|
            && Entries(lines, section)[n] == Entry(SectionAt(lines[..i], section), lines[i].key, lines[i].value)
  {
    var last := |lines| - 1;
    if i < last {
      EntriesAreSettings(lines[..last], section, i);
      assert lines[..last][..i] == lines[..i];
    }
  }

  lemma {:induction false} EntriesCount(lines: seq<Line>, section: Text)
    ensures |Entries(lines, section)| == |set i | 0 <= i < |lines| && lines[i].Assign?|
  {
    if lines != [] {
      var last := |lines| - 1;
      var pre := lines[..last];
      EntriesCount(pre, section);
      assert (set i | 0 <= i < |lines| && lines[i].Assign?)
          == (set i | 0 <= i < |pre| && pre[i].Assign?) + if lines[last].Assign? then {last} else {};
    }
  }

  lemma LinesGrow(lines: seq<Line>, i: nat)
    requires i < |lines|
    ensures SectionAt(lines[..i + 1], []) == SectionAfter(lines[i], SectionAt(lines[..i], []))
    ensures Entries(lines[..i + 1], []) == Entries(lines[..i], []) + EntryOf(lines[i], SectionAt(lines[..i], []))
    ensures BadHeader !in lines[..i] && !lines[i].BadHeader? ==> BadHeader !in lines[..i + 1]
  {
    assert lines[..i + 1][..i] == lines[..i];
    assert lines[..i + 1] == lines[..i] + [lines[i]];
  }

  lemma MergedMore(log: seq<Entry>, e: Entry, section: Text)
    ensures Merged(log + [e], section) == Merged(log, section) + if Key(e.section) == Key(section) then [Item(e.key, e.value)] else []
  {
    assert (log + [e])[..|log|] == log;
  }

  lemma {:induction false} MergedAlike(log: seq<Entry>, a: Text, b: Text)
    requires Key(a) == Key(b)
    ensures Merged(log, a) == Merged(log, b)
  {
    if log != [] { MergedAlike(log[..|log| - 1], a, b); }
  }

  /** No two sections share their settings. */
  ghost predicate Separate(sections: seq<Item<Values>>) {
    forall i, j :: 0 <= i < j < |sections| ==> sections[i].value != sections[j].value
  }

  ghost function Objects(sections: seq<Item<Values>>): set<Values> {
    set i | 0 <= i < |sections| :: sections[i].value
  }

  /** Every section holds the settings given in sections equivalent to it. */
  ghost predicate Filled(sections: seq<Item<Values>>, log: seq<Entry>)
    reads Objects(sections)
  {
    forall i :: 0 <= i < |sections| ==>
      sections[i].value.Valid() && sections[i].value.elements == Merged(log, sections[i].key)
  }

  /** No setting is without its section. */
  ghost predicate Complete(sections: seq<Item<Values>>, log: seq<Entry>) {
    forall s :: First(sections, s).None? ==> Merged(log, s) == []
  }

  lemma OneMoreSection(was: seq<Item<Values>>, log: seq<Entry>, p: nat, x: Item<Values>)
    requires Ascending(was) && Separate(was) && Filled(was, log) && Complete(was, log) && p <= |was|
    requires forall i :: 0 <= i < p ==> Less(was[i].key, x.key)
    requires forall i :: p <= i < |was| ==> Less(x.key, was[i].key)
    requires x.value !in Objects(was) && x.value.Valid() && x.value.elements == [] && First(was, x.key).None?
    ensures var now := was[..p] + [x] + was[p..];
            && Ascending(now) && Separate(now) && Filled(now, log) && Complete(now, log)
            && Objects(now) == Objects(was) + {x.value} && First(now, x.key) == Some(x.value)
  {
    InsertedAscends(was, p, x);
    SectionsNow(was, p, x);
    SeparateNow(was, p, x);
    FilledNow(was, log, p, x);
    var now := was[..p] + [x] + was[p..];
    forall s ensures First(now, s) == if Key(x.key) == Key(s) then Some(x.value) else First(was, s) {
      InsertedFirst(was, p, x, s);
    }
  }

  /** The entry at `j` after `x` was put in at `p`. */
  lemma Inserted<T>(was: seq<T>, p: nat, x: T, j: nat)
    requires p <= |was| && j <= |was|
    ensures (was[..p] + [x] + was[p..])[j] == if j < p then was[j] else if j == p then x else was[j - 1]
  {
  }

  lemma SeparateNow(was: seq<Item<Values>>, p: nat, x: Item<Values>)
    requires Separate(was) && p <= |was| && x.value !in Objects(was)
    ensures Separate(was[..p] + [x] + was[p..])
  {
    var now := was[..p] + [x] + was[p..];
    assert forall i :: 0 <= i < |was| ==> was[i].value in Objects(was);
    forall i, j | 0 <= i < j < |now| ensures now[i].value != now[j].value {
      Inserted(was, p, x, i);
      Inserted(was, p, x, j);
    }
  }

  lemma FilledNow(was: seq<Item<Values>>, log: seq<Entry>, p: nat, x: Item<Values>)
    requires Filled(was, log) && p <= |was| && x.value.Valid() && x.value.elements == Merged(log, x.key)
    ensures Filled(was[..p] + [x] + was[p..], log)
  {
    var now := was[..p] + [x] + was[p..];
    forall j | 0 <= j < |now| ensures now[j].value.Valid() && now[j].value.elements == Merged(log, now[j].key) {
      Inserted(was, p, x, j);
    }
  }

  lemma SectionsNow(was: seq<Item<Values>>, p: nat, x: Item<Values>)
    requires p <= |was|
    ensures Objects(was[..p] + [x] + was[p..]) == Objects(was) + {x.value}
  {
    var now := was[..p] + [x] + was[p..];
    forall v | v in Objects(was) ensures v in Objects(now) {
      var i :| 0 <= i < |was| && was[i].value == v;
      assert now[if i < p then i else i + 1] == was[i];
    }
    assert now[p] == x;
  }

  /** Which section the settings are found under. */
  lemma HolderOf(sections: seq<Item<Values>>, name: Text, values: Values) returns (i: nat)
    requires First(sections, name) == Some(values)
    ensures i < |sections| && sections[i].value == values && Key(sections[i].key) == Key(name)
  {
    i := FirstAt(sections, name);
  }

  lemma {:induction false} FirstAt<T>(c: seq<Item<T>>, k: Text) returns (i: nat)
    requires First(c, k).Some?
    ensures i < |c| && Key(c[i].key) == Key(k) && First(c, k) == Some(c[i].value)
  {
    if First(c[..|c| - 1], k).Some? {
      i := FirstAt(c[..|c| - 1], k);
    } else {
      i := |c| - 1;
    }
  }

  /** A setting added to the log and to its section, and to no other. */
  lemma AssignedFilled(sections: seq<Item<Values>>, log: seq<Entry>, e: Entry, i: nat)
    requires Ascending(sections) && i < |sections| && Key(sections[i].key) == Key(e.section) && Complete(sections, log)
    requires forall j :: 0 <= j < |sections| ==> sections[j].value.Valid()
    requires sections[i].value.elements == Merged(log, sections[i].key) + [Item(e.key, e.value)]
    requires forall j :: 0 <= j < |sections| && j != i ==> sections[j].value.elements == Merged(log, sections[j].key)
    ensures Filled(sections, log + [e]) && Complete(sections, log + [e])
  {
    forall j | 0 <= j < |sections| ensures sections[j].value.elements == Merged(log + [e], sections[j].key) {
      MergedMore(log, e, sections[j].key);
      LessIsStrictWeakOrder(sections[i].key, sections[j].key, e.section);
    }
    forall s | First(sections, s).None? ensures Merged(log + [e], s) == [] {
      MergedMore(log, e, s);
      if Key(e.section) == Key(s) {
        AscendingFirst(sections, s, i);
      }
    }
  }

  class SimpleConfig {
    var sections: seq<Item<Values>>
    ghost var log: seq<Entry>

    ghost predicate Valid()
      reads this, Objects(sections)
    {
      Ascending(sections) && Separate(sections) && Filled(sections, log) && Complete(sections, log)
    }

    constructor ()
      ensures Valid() && log == [] && fresh(Objects(sections))
    {
      sections, log := [], [];
    }

    /** The section of that name, made if there is none equivalent. */
    method FetchSection(name: Text) returns (values: Values)
      requires Valid()
      modifies this`sections
      ensures Valid() && First(sections, name) == Some(values) && values in Objects(sections)
      ensures Objects(old(sections)) <= Objects(sections) && fresh(Objects(sections) - Objects(old(sections)))
    {
      hide Less, Merged;
      var p, found := Find(sections, name);
      if found {
        return sections[p].value;
      }
      values := new Values();
      OneMoreSection(sections, log, p, Item(name, values));
      sections := sections[..p] + [Item(name, values)] + sections[p..];
    }

    /** One setting for the section `name`, whose settings are `values`. */
    method Assign(values: Values, key: Text, value: Text, ghost name: Text)
      requires Valid() && First(sections, name) == Some(values) && values in Objects(sections)
      modifies this`log, values
      ensures Valid() && log == old(log) + [Entry(name, key, value)]
    {
      ghost var i := HolderOf(sections, name, values);
      values.Insert(key, value);
      log := log + [Entry(name, key, value)];
      AssignedFilled(sections, old(log), Entry(name, key, value), i);
    }

    /** One line, while `values` holds the settings of section `name`. */
    method ReadLine(line: Line, values: Values, ghost name: Text) returns (now: Values, ghost section: Text)
      requires Valid() && First(sections, name) == Some(values) && values in Objects(sections) && !line.BadHeader?
      modifies this`sections, this`log, values
      ensures Valid() && First(sections, section) == Some(now) && now in Objects(sections)
      ensures Objects(old(sections)) <= Objects(sections) && fresh(Objects(sections) - Objects(old(sections)))
      ensures section == SectionAfter(line, name) && log == old(log) + EntryOf(line, name)
    {
      now, section := values, name;
      match line {
        case Header(n) =>
          now := FetchSection(n);
          section := n;
        case Assign(key, value) =>
          Assign(values, key, value, name);
        case Nothing =>
      }
    }

    /** Read the lines of a file; a header that is not closed empties the configuration. */
    method Load(texts: seq<Text>) returns (ok: bool)
      requires Valid()
      modifies this`sections, this`log, Objects(sections)
      ensures Valid() && (ok <==> BadHeader !in ParseAll(texts))
      ensures log == if ok then old(log) + Entries(ParseAll(texts), []) else []
    {
      ghost var lines := ParseAll(texts);
      var values := FetchSection([]);
      ghost var name: Text := [];
      for i := 0 to |texts|
        invariant Valid() && First(sections, name) == Some(values) && values in Objects(sections)
        invariant fresh(Objects(sections) - Objects(old(sections)))
        invariant BadHeader !in lines[..i] && name == SectionAt(lines[..i], [])
        invariant log == old(log) + Entries(lines[..i], [])
      {
        var line := Parse(texts[i]);
        if line.BadHeader? {
          Clear();
          return false;
        }
        LinesGrow(lines, i);
        Regroup(old(log), Entries(lines[..i], []), EntryOf(lines[i], name));
        values, name := ReadLine(line, values, name);
      }
      assert lines[..|lines|] == lines;
      return true;
    }

    method Clear()
      modifies this`sections, this`log
      ensures Valid() && sections == [] && log == []
    {
      sections, log := [], [];
    }

    /** The value of the first setting with an equivalent key given in an equivalent section. */
    method GetValuePtr(section: Text, key: Text) returns (r: Option<Text>)
      requires Valid()
      ensures r == if key == [] then None else First(Merged(log, section), key)
    {
      r := None;
      if key != [] {
        var p, found := Find(sections, section);
        if found {
          MergedAlike(log, section, sections[p].key);
          r := sections[p].value.Get(key);
        }
      }
    }
  }
}
