/** The comma-separated list typed into the "Set Array" box, read as
    `inputVal.split(',').map(v => parseInt(v.trim())).filter(v => !isNaN(v))`. */
module UserInput {
  import opened JsNumbers

  /** `s.split(',')`: the text between commas, in order; there is always at least one field. */
  function Split(s: string): (fields: seq<string>)
    ensures |fields| >= 1
    ensures forall k :: 0 <= k < |fields| ==> ',' !in fields[k]
  {
    if s == [] then
      [[]]
    else
      var rest := Split(s[1..]);
      if s[0] == ',' then [[]] + rest else [[s[0]] + rest[0]] + rest[1..]
  }

  /** `fields.join(',')`. */
  function Join(fields: seq<string>): string
    requires |fields| >= 1
  {
    if |fields| == 1 then fields[0] else fields[0] + "," + Join(fields[1..])
  }

  /** Joining the fields with commas gives back the text that was split. */
  lemma {:induction false} JoinSplit(s: string)
    ensures Join(Split(s)) == s
  {
    if s != [] {
      var rest := Split(s[1..]);
      JoinSplit(s[1..]);
      if s[0] != ',' && |rest| > 1 {
        assert Join(Split(s)) == [s[0]] + (rest[0] + "," + Join(rest[1..]));
      }
    }
  }

  /** Text with no comma is a single field. */
  lemma {:induction false} SplitNoComma(f: string)
    requires ',' !in f
    ensures Split(f) == [f]
  {
    if f != [] {
      assert f == [f[0]] + f[1..] && f[0] != ',';
      SplitNoComma(f[1..]);
    }
  }

  /** A field with no comma, a comma and more text: the field, then the fields of the rest. */
  lemma {:induction false} SplitComma(f: string, s: string)
    requires ',' !in f
    ensures Split(f + "," + s) == [f] + Split(s)
  {
    if f == [] {
      assert f + "," + s == [','] + s;
    } else {
      assert f == [f[0]] + f[1..] && f[0] != ',';
      assert (f + "," + s)[0] == f[0];
      assert (f + "," + s)[1..] == f[1..] + "," + s;
      SplitComma(f[1..], s);
    }
  }

  /** Splitting fields joined with commas gives the fields back when none contains a comma. */
  lemma {:induction false} SplitJoin(fields: seq<string>)
    requires |fields| >= 1
    requires forall k :: 0 <= k < |fields| ==> ',' !in fields[k]
    ensures Split(Join(fields)) == fields
  {
    if |fields| == 1 {
      SplitNoComma(fields[0]);
    } else {
      SplitComma(fields[0], Join(fields[1..]));
      SplitJoin(fields[1..]);
    }
  }

  /** `v => parseInt(v.trim())`, the value one field stands for. */
  function FieldValue(field: string): Num {
    ParseInt(Trim(field))
  }

  /** `.map(v => parseInt(v.trim()))` over the fields. */
  function FieldValues(fields: seq<string>): (ns: seq<Num>)
    ensures |ns| == |fields|
    // the field-by-field reading, kept for ParseListMembers and ParseListShowList
    ensures forall k :: 0 <= k < |fields| ==> ns[k] == FieldValue(fields[k])
  {
    seq(|fields|, k requires 0 <= k < |fields| => FieldValue(fields[k]))
  }

  /** `.filter(v => !isNaN(v))`: the integers among `ns`, in order. */
  function KeepInts(ns: seq<Num>): (values: seq<int>)
    ensures |values| <= |ns|
  {
    if ns == [] then []
    else (if ns[0].Int? then [ns[0].value] else []) + KeepInts(ns[1..])
  }

  /** An integer is kept exactly when it is among the parsed values. */
  lemma {:induction false} KeepIntsMembers(ns: seq<Num>, x: int)
    ensures x in KeepInts(ns) <==> Int(x) in ns
  {
    if ns != [] {
      assert ns == [ns[0]] + ns[1..];
      KeepIntsMembers(ns[1..], x);
    }
  }

  /** Filtering keeps the order: the values of a concatenation are the concatenation of the values. */
  lemma {:induction false} KeepIntsAppend(a: seq<Num>, b: seq<Num>)
    ensures KeepInts(a + b) == KeepInts(a) + KeepInts(b)
  {
    if a == [] {
      assert a + b == b;
    } else {
      var c := a + b;
      assert c[0] == a[0] && c[1..] == a[1..] + b;
      KeepIntsAppend(a[1..], b);
      var head := if a[0].Int? then [a[0].value] else [];
      assert KeepInts(c) == head + KeepInts(c[1..]);
      assert KeepInts(a) == head + KeepInts(a[1..]);
    }
  }

  /** Nothing is dropped when every value is an integer: one value per field, in place. */
  lemma {:induction false} KeepIntsAllInts(ns: seq<Num>)
    requires forall k :: 0 <= k < |ns| ==> ns[k].Int?
    ensures |KeepInts(ns)| == |ns|
    ensures forall k :: 0 <= k < |ns| ==> ns[k] == Int(KeepInts(ns)[k])
  {
    if ns != [] {
      KeepIntsAllInts(ns[1..]);
      forall k | 1 <= k < |ns| ensures ns[k] == Int(KeepInts(ns)[k]) {
        assert ns[k] == ns[1..][k - 1];
      }
    }
  }

  /** What `generateUserArr` reads from the text `s`. */
  function ParseList(s: string): (values: seq<int>)
    ensures |values| <= |Split(s)|
  {
    KeepInts(FieldValues(Split(s)))
  }

  /** An integer is read from the text exactly when one of its comma-separated fields parses to it. */
  lemma ParseListMembers(s: string, x: int)
    ensures x in ParseList(s) <==> Int(x) in FieldValues(Split(s))
  {
    KeepIntsMembers(FieldValues(Split(s)), x);
  }

  /** Nothing is read from the text exactly when no field parses (then the handler changes nothing). */
  lemma ParseListEmpty(s: string)
    ensures ParseList(s) == [] <==> forall n | n in FieldValues(Split(s)) :: n.NaN?
  {
    var ns := FieldValues(Split(s));
    if ParseList(s) == [] {
      forall n | n in ns ensures n.NaN? {
        if n.Int? {
          ParseListMembers(s, n.value);
        }
      }
    } else {
      ParseListMembers(s, ParseList(s)[0]);
    }
  }

  /** The text the array display shows, entered back with commas between the numbers. */
  function ShowList(xs: seq<int>): string
    requires xs != []
  {
    Join(seq(|xs|, k requires 0 <= k < |xs| => ShowInt(xs[k])))
  }

  /** Typing the shown numbers back, separated by commas, yields the same array. */
  lemma ParseListShowList(xs: seq<int>)
    requires xs != []
    ensures ParseList(ShowList(xs)) == xs
  {
    var fields := seq(|xs|, k requires 0 <= k < |xs| => ShowInt(xs[k]));
    SplitJoin(fields);
    forall k | 0 <= k < |fields| ensures FieldValue(fields[k]) == Int(xs[k]) {
      ParseIntIgnoresTrim(fields[k]);
      ParseIntShowInt(xs[k]);
    }
    KeepIntsAllInts(FieldValues(fields));
  }
}
