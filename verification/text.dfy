/** The few string operations the storage layer relies on. */
module Text {

  /** PHP's `empty()` on a string, which is also its falsiness: both the
      empty string and "0" count as empty. */
  predicate IsPhpEmpty(s: string)
  {
    s == "" || s == "0"
  }

  predicate EndsWith(s: string, suffix: string)
  {
    |suffix| <= |s| && s[|s| - |suffix|..] == suffix
  }

  /** `implode(',', parts)`. */
  function Join(parts: seq<string>): string
  {
    if |parts| == 0 then ""
    else if |parts| == 1 then parts[0]
    else parts[0] + "," + Join(parts[1..])
  }

  /** `explode(',', s)`: the pieces between commas; never empty. */
  function Split(s: string): (r: seq<string>)
    ensures |r| >= 1
    decreases |s|
  {
    if |s| == 0 then [""]
    else
      var rest := Split(s[1..]);
      if s[0] == ',' then [""] + rest
      else [[s[0]] + rest[0]] + rest[1..]
  }

  /** Splitting text that starts with a comma-free piece puts that piece in
      front of the first piece of the rest. */
  lemma {:induction false} SplitCommaFreePrefix(x: string, y: string)
    requires ',' !in x
    ensures Split(x + y) == [x + Split(y)[0]] + Split(y)[1..]
    decreases |x|
  {
    if |x| > 0 {
      var s := x + y;
      var x' := x[1..];
      assert s[0] == x[0];
      assert x[0] != ',' by {
        assert x[0] in x;
      }
      assert s[1..] == x' + y;
      assert ',' !in x';
      SplitCommaFreePrefix(x', y);
      var rest := Split(s[1..]);
      assert rest == [x' + Split(y)[0]] + Split(y)[1..];
      assert Split(s) == [[s[0]] + rest[0]] + rest[1..];
      assert [x[0]] + (x' + Split(y)[0]) == x + Split(y)[0];
    } else {
      var r := Split(y);
      assert x + y == y;
      assert x + r[0] == r[0];
      assert r == [r[0]] + r[1..];
    }
  }

  /** Joining comma-free pieces with commas and splitting again gives the
      pieces back; so the serialised order types and permissions keep every
      entry.  (An empty list joins to "" just like the one-element list
      [""], hence the non-empty requirement.) */
  lemma {:induction false} SplitJoin(parts: seq<string>)
    requires |parts| >= 1
    requires forall i :: 0 <= i < |parts| ==> ',' !in parts[i]
    ensures Split(Join(parts)) == parts
    decreases |parts|
  {
    if |parts| == 1 {
      SplitCommaFreePrefix(parts[0], "");
      assert parts[0] + "" == parts[0];
    } else {
      var rest := parts[1..];
      SplitJoin(rest);
      assert parts[0] + "," + Join(rest) == parts[0] + ("," + Join(rest));
      SplitCommaFreePrefix(parts[0], "," + Join(rest));
      assert ("," + Join(rest))[1..] == Join(rest);
      assert parts[0] + "" == parts[0];
      assert parts == [parts[0]] + rest;
    }
  }
}
