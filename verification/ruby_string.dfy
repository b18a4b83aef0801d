/** The parts of Ruby's `String#split` (with a one-character separator and no limit)
    and of `Array#[]` that the AWS tag handlers rely on. */
module RubyString {
  import opened Wrappers

  /** The fields of `field + s`, where `field` is the part of the current field already
      read. */
  function FieldsFrom(s: string, field: string, sep: char): (fs: seq<string>)
    ensures |fs| >= 1
    decreases |s|
  {
    if |s| == 0 then [field]
    else if s[0] == sep then [field] + FieldsFrom(s[1..], "", sep)
    else FieldsFrom(s[1..], field + [s[0]], sep)
  }

  /** Every field of `s` between occurrences of `sep`, empty ones included. This is
      what `split` cuts before it trims trailing empty fields. */
  function Fields(s: string, sep: char): (fs: seq<string>)
    ensures |fs| >= 1
  {
    FieldsFrom(s, "", sep)
  }

  /** Fields glued back together, `sep` between each two. */
  function Join(fs: seq<string>, sep: char): (s: string)
    requires |fs| >= 1
  {
    if |fs| == 1 then fs[0] else fs[0] + [sep] + Join(fs[1..], sep)
  }

  /** `k` copies of the separator. */
  function Seps(k: nat, sep: char): (s: string)
  {
    seq(k, _ => sep)
  }

  /** `fs` without its trailing empty fields. */
  function TrimTrailingEmpty(fs: seq<string>): (r: seq<string>)
    ensures r <= fs
    ensures |r| > 0 ==> r[|r| - 1] != ""
    ensures forall i :: |r| <= i < |fs| ==> fs[i] == ""
  {
    if |fs| == 0 || fs[|fs| - 1] != "" then fs else TrimTrailingEmpty(fs[..|fs| - 1])
  }

  /** `s.split(sep)` for a one-character separator other than a space (Ruby splits on
      `' '` awk-style, which is not modelled; the handlers split on `:` and `/`): the fields of `s`, with trailing empty fields removed, so
      `"".split(':')` and `"::".split(':')` are both empty. Gluing the result back
      together gives `s` up to a tail made only of separators. */
  function Split(s: string, sep: char): (r: seq<string>)
    ensures forall i :: 0 <= i < |r| ==> sep !in r[i]
    ensures |r| > 0 ==> r[|r| - 1] != ""
    ensures |r| == 0 ==> forall k :: 0 <= k < |s| ==> s[k] == sep
    ensures |r| > 0 ==> Join(r, sep) <= s && forall k :: |Join(r, sep)| <= k < |s| ==> s[k] == sep
  {
    var fs := Fields(s, sep);
    var r := TrimTrailingEmpty(fs);
    JoinFields(s, sep);
    FieldsFromAreSepFree(s, "", sep);
    if |r| == 0 then
      JoinEmpties(fs, sep);
      r
    else
      assert fs[..|r|] == r;
      JoinTrailingEmpties(fs, |r|, sep);
      r
  }

  /** Ruby's `xs[i]`: negative indices count from the end; out of range is `nil`. */
  function At(xs: seq<string>, i: int): (r: Option<string>)
    ensures r.Some? <==> -|xs| <= i < |xs|
    ensures 0 <= i < |xs| ==> r == Some(xs[i])
    ensures -|xs| <= i < 0 ==> r == Some(xs[|xs| + i])
  {
    if 0 <= i < |xs| then Some(xs[i])
    else if -|xs| <= i < 0 then Some(xs[|xs| + i])
    else None
  }

  // ---------------------------------------------------------------------------
  // Fields and Join are inverse to each other

  /** Gluing the fields back together gives the text they were cut from. */
  lemma {:induction false} JoinFieldsFrom(s: string, field: string, sep: char)
    ensures Join(FieldsFrom(s, field, sep), sep) == field + s
    decreases |s|
  {
    if |s| > 0 {
      if s[0] == sep {
        var rest := FieldsFrom(s[1..], "", sep);
        JoinFieldsFrom(s[1..], "", sep);
        assert ([field] + rest)[1..] == rest;
        assert field + s == field + [sep] + s[1..];
      } else {
        JoinFieldsFrom(s[1..], field + [s[0]], sep);
        assert field + s == field + [s[0]] + s[1..];
      }
    }
  }

  lemma JoinFields(s: string, sep: char)
    ensures Join(Fields(s, sep), sep) == s
  {
    JoinFieldsFrom(s, "", sep);
  }

  /** No field holds the separator, provided the part already read does not. */
  lemma {:induction false} FieldsFromAreSepFree(s: string, field: string, sep: char)
    requires sep !in field
    ensures forall i :: 0 <= i < |FieldsFrom(s, field, sep)| ==> sep !in FieldsFrom(s, field, sep)[i]
    decreases |s|
  {
    if |s| > 0 {
      if s[0] == sep {
        FieldsFromAreSepFree(s[1..], "", sep);
      } else {
        FieldsFromAreSepFree(s[1..], field + [s[0]], sep);
      }
    }
  }

  /** A string without the separator is read into the current field whole. */
  lemma {:induction false} FieldsFromSepFree(s: string, field: string, sep: char)
    requires sep !in s
    ensures FieldsFrom(s, field, sep) == [field + s]
    decreases |s|
  {
    if |s| > 0 {
      assert s[0] in s;
      assert sep !in s[1..] by {
        forall k | 0 <= k < |s[1..]| ensures s[1..][k] != sep {
          assert s[1..][k] == s[k + 1];
        }
      }
      FieldsFromSepFree(s[1..], field + [s[0]], sep);
      assert field + [s[0]] + s[1..] == field + s;
    } else {
      assert field + s == field;
    }
  }

  lemma FieldsOfSepFree(s: string, sep: char)
    requires sep !in s
    ensures Fields(s, sep) == [s]
  {
    FieldsFromSepFree(s, "", sep);
    assert "" + s == s;
  }

  /** A separator ends the current field and starts reading the rest afresh. */
  lemma {:induction false} FieldsFromConcat(x: string, y: string, field: string, sep: char)
    ensures FieldsFrom(x + [sep] + y, field, sep) == FieldsFrom(x, field, sep) + Fields(y, sep)
    decreases |x|
  {
    var s := x + [sep] + y;
    if |x| == 0 {
      assert s[0] == sep && s[1..] == y;
    } else {
      assert s[0] == x[0] && s[1..] == x[1..] + [sep] + y;
      if x[0] == sep {
        FieldsFromConcat(x[1..], y, "", sep);
        assert FieldsFrom(s, field, sep) == [field] + FieldsFrom(s[1..], "", sep);
        assert FieldsFrom(x, field, sep) == [field] + FieldsFrom(x[1..], "", sep);
      } else {
        FieldsFromConcat(x[1..], y, field + [x[0]], sep);
      }
    }
  }

  /** A separator splits a string into the fields of its two sides. */
  lemma FieldsConcat(x: string, y: string, sep: char)
    ensures Fields(x + [sep] + y, sep) == Fields(x, sep) + Fields(y, sep)
  {
    FieldsFromConcat(x, y, "", sep);
  }

  /** Cutting a glued sequence of separator-free fields gives the fields back. */
  lemma {:induction false} FieldsJoin(fs: seq<string>, sep: char)
    requires |fs| >= 1
    requires forall i :: 0 <= i < |fs| ==> sep !in fs[i]
    ensures Fields(Join(fs, sep), sep) == fs
    decreases |fs|
  {
    FieldsOfSepFree(fs[0], sep);
    if |fs| > 1 {
      FieldsJoin(fs[1..], sep);
      FieldsConcat(fs[0], Join(fs[1..], sep), sep);
      assert [fs[0]] + fs[1..] == fs;
    }
  }

  /** Fields that are all empty glue into a run of separators. */
  lemma {:induction false} JoinEmpties(fs: seq<string>, sep: char)
    requires |fs| >= 1
    requires forall i :: 0 <= i < |fs| ==> fs[i] == ""
    ensures Join(fs, sep) == Seps(|fs| - 1, sep)
    decreases |fs|
  {
    if |fs| > 1 {
      JoinEmpties(fs[1..], sep);
      assert Seps(|fs| - 1, sep) == [sep] + Seps(|fs| - 2, sep);
    }
  }

  /** Trailing empty fields add only separators to the glued string. */
  lemma {:induction false} JoinTrailingEmpties(fs: seq<string>, n: nat, sep: char)
    requires 1 <= n <= |fs|
    requires forall i :: n <= i < |fs| ==> fs[i] == ""
    ensures Join(fs, sep) == Join(fs[..n], sep) + Seps(|fs| - n, sep)
    decreases |fs|
  {
    if n == |fs| {
      assert fs[..n] == fs;
      assert Seps(0, sep) == [];
    } else if n == 1 {
      JoinEmpties(fs[1..], sep);
      assert fs[..1] == [fs[0]];
      assert Seps(|fs| - 1, sep) == [sep] + Seps(|fs| - 2, sep);
    } else {
      JoinTrailingEmpties(fs[1..], n - 1, sep);
      assert fs[1..][..n - 1] == fs[..n][1..];
    }
  }

  /** Splitting `prefix`, a separator and then separator-free fields the last of which
      is non-empty gives the fields of `prefix` followed by exactly those fields. */
  lemma SplitWithTail(prefix: string, tail: seq<string>, sep: char)
    requires |tail| >= 1 && tail[|tail| - 1] != ""
    requires forall i :: 0 <= i < |tail| ==> sep !in tail[i]
    ensures Split(prefix + [sep] + Join(tail, sep), sep) == Fields(prefix, sep) + tail
  {
    var s := prefix + [sep] + Join(tail, sep);
    FieldsJoin(tail, sep);
    FieldsConcat(prefix, Join(tail, sep), sep);
    var fs := Fields(prefix, sep) + tail;
    assert Fields(s, sep) == fs;
    assert fs[|fs| - 1] == tail[|tail| - 1];
    calc {
      Split(s, sep);
      TrimTrailingEmpty(Fields(s, sep));
      TrimTrailingEmpty(fs);
      fs;
    }
  }
}
