/** Cutting strings at a separator, as `split_once` and `splitn` do. */
module Splitting {
  import opened Wrappers
  import opened Sequences

  datatype Parts = Parts(before: string, after: string)

  /** `split_once`: cut at the first occurrence of the separator. */
  function SplitOnce(s: string, separator: string): Option<Parts> {
    if separator <= s then Some(Parts("", s[|separator|..]))
    else if s == [] then None
    else
      var rest := SplitOnce(s[1..], separator);
      if rest.None? then None else Some(Parts([s[0]] + rest.value.before, rest.value.after))
  }

  lemma HeadAndTail(s: string)
    requires s != []
    ensures s == [s[0]] + s[1..]
  {
  }

  lemma {:induction false} SplitOnceJoins(s: string, separator: string)
    requires SplitOnce(s, separator).Some?
    ensures var p := SplitOnce(s, separator).value; s == p.before + (separator + p.after)
  {
    if separator <= s {
      assert s == separator + s[|separator|..];
    } else {
      SplitOnceJoins(s[1..], separator);
      var rest := SplitOnce(s[1..], separator).value;
      Regroup([s[0]], rest.before, separator + rest.after);
      HeadAndTail(s);
    }
  }

  lemma PrefixOfFront(a: string, front: string, back: string)
    ensures a <= front ==> a <= front + back
  {
  }

  lemma {:induction false} NoneInFront(s: string, separator: string)
    requires separator != [] && SplitOnce(s, separator).Some?
    ensures SplitOnce(SplitOnce(s, separator).value.before, separator).None?
  {
    var p := SplitOnce(s, separator).value;
    if p.before != [] {
      NoneInFront(s[1..], separator);
      assert p.before[1..] == SplitOnce(s[1..], separator).value.before;
      SplitOnceJoins(s, separator);
      PrefixOfFront(separator, p.before, separator + p.after);
    }
  }

  /** The cut is at an occurrence of the separator, and no occurrence lies in front of it. */
  lemma SplitOnceExact(s: string, separator: string)
    requires separator != [] && SplitOnce(s, separator).Some?
    ensures var p := SplitOnce(s, separator).value;
            s == p.before + (separator + p.after) && SplitOnce(p.before, separator).None?
  {
    SplitOnceJoins(s, separator);
    NoneInFront(s, separator);
  }

  lemma {:induction false} SplitsAtColon(before: string, after: string)
    requires ':' !in before
    ensures SplitOnce(before + (":" + after), ":") == Some(Parts(before, after))
  {
    var s := before + (":" + after);
    if before == [] {
      assert s[1..] == after;
    } else {
      SplitsAtColon(before[1..], after);
      assert s[0] == before[0] && s[1..] == before[1..] + (":" + after);
      assert before == [before[0]] + before[1..];
    }
  }

  lemma {:induction false} NoColonBeforeColon(s: string)
    ensures SplitOnce(s, ":").None? <==> ':' !in s
    ensures SplitOnce(s, ":").Some? ==> ':' !in SplitOnce(s, ":").value.before
  {
    if s != [] {
      NoColonBeforeColon(s[1..]);
      assert s == [s[0]] + s[1..];
    }
  }
}
