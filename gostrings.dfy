/** Go strings as the source uses them: sequences of bytes, indexed and measured
    in bytes, and `strings.Split` with a one-byte separator. */
module GoStrings {

  /** A byte. Characters below 256 stand for bytes so that string literals can be written directly. */
  type Byte = c: char | c as int < 256

  type Str = seq<Byte>

  const NewlineByte: Byte := '\n'
  const SpaceByte: Byte := ' '

  /** `strings.Join(parts, string(sep))`. */
  function Join(parts: seq<Str>, sep: Byte): Str
    requires |parts| >= 1
  {
    if |parts| == 1 then parts[0] else parts[0] + [sep] + Join(parts[1..], sep)
  }

  /** `strings.Split(s, string(sep))`: the pieces between separators, never an empty
      list (the empty string gives one empty piece). Defined byte by byte from the
      front: a separator starts a new piece, any other byte joins the first piece. */
  function Split(s: Str, sep: Byte): (parts: seq<Str>)
    ensures |parts| >= 1
    ensures forall i :: 0 <= i < |parts| ==> sep !in parts[i]
    decreases |s|
  {
    if |s| == 0 then [[]]
    else
      var rest := Split(s[1..], sep);
      if s[0] == sep then [[]] + rest
      else [[s[0]] + rest[0]] + rest[1..]
  }

  /** A string without the separator is a single piece. */
  lemma {:induction false} SplitWhole(s: Str, sep: Byte)
    requires sep !in s
    ensures Split(s, sep) == [s]
    decreases |s|
  {
    if |s| > 0 {
      SplitWhole(s[1..], sep);
      assert [s[0]] + s[1..] == s;
    }
  }

  /** A first piece without the separator, then the separator, then the rest. */
  lemma {:induction false} SplitFirst(first: Str, sep: Byte, rest: Str)
    requires sep !in first
    ensures Split(first + [sep] + rest, sep) == [first] + Split(rest, sep)
    decreases |first|
  {
    var s := first + [sep] + rest;
    if |first| == 0 {
      assert s == [sep] + rest;
      assert s[1..] == rest;
    } else {
      assert s[0] == first[0];
      assert s[1..] == first[1..] + [sep] + rest;
      SplitFirst(first[1..], sep, rest);
      assert [first[0]] + first[1..] == first;
    }
  }

  /** Joining the pieces of a split with the same separator gives back the string. */
  lemma {:induction false} JoinSplit(s: Str, sep: Byte)
    ensures Join(Split(s, sep), sep) == s
    decreases |s|
  {
    if |s| > 0 {
      var rest := Split(s[1..], sep);
      JoinSplit(s[1..], sep);
      if s[0] == sep {
        assert Split(s, sep) == [[]] + rest;
        assert ([[]] + rest)[1..] == rest;
      } else {
        var parts := [[s[0]] + rest[0]] + rest[1..];
        assert Split(s, sep) == parts;
        if |rest| == 1 {
          assert Join(parts, sep) == [s[0]] + rest[0];
        } else {
          assert parts[1..] == rest[1..];
          assert Join(rest, sep) == rest[0] + [sep] + Join(rest[1..], sep);
          assert Join(parts, sep) == [s[0]] + rest[0] + [sep] + Join(rest[1..], sep);
        }
      }
    }
  }

  /** Splitting undoes joining when no piece contains the separator. */
  lemma {:induction false} SplitJoin(parts: seq<Str>, sep: Byte)
    requires |parts| >= 1
    requires forall i :: 0 <= i < |parts| ==> sep !in parts[i]
    ensures Split(Join(parts, sep), sep) == parts
    decreases |parts|
  {
    if |parts| == 1 {
      SplitWhole(parts[0], sep);
    } else {
      SplitFirst(parts[0], sep, Join(parts[1..], sep));
      SplitJoin(parts[1..], sep);
      assert parts == [parts[0]] + parts[1..];
    }
  }

  /** A byte other than the separator that no piece contains is not in the joined string. */
  lemma {:induction false} JoinAvoids(parts: seq<Str>, sep: Byte, b: Byte)
    requires |parts| >= 1 && b != sep
    requires forall i :: 0 <= i < |parts| ==> b !in parts[i]
    ensures b !in Join(parts, sep)
    decreases |parts|
  {
    if |parts| > 1 {
      JoinAvoids(parts[1..], sep, b);
    }
  }

  /** `s[1:len(s)-1]`: the string without its first and last byte (the quotes in a nanorc file). */
  function Unquote(s: Str): (inner: Str)
    requires |s| >= 2
    ensures |inner| == |s| - 2
    ensures [s[0]] + inner + [s[|s| - 1]] == s
  {
    s[1..|s| - 1]
  }
}
