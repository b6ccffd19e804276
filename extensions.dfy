/**
 * The extension filter shared by the tree scans and the tree copies:
 * lower-casing (ASCII, standing in for strings.ToLower), the extension of a
 * file name (as filepath.Ext computes it) and the match against a filter.
 */
module Extensions {

  function AsciiLower(c: char): char {
    if 'A' <= c <= 'Z' then (c as int + 32) as char else c
  }

  function ToLower(s: string): (r: string)
    ensures |r| == |s|
    ensures forall k {:trigger r[k]} :: 0 <= k < |s| ==> r[k] == AsciiLower(s[k])
  {
    seq(|s|, k requires 0 <= k < |s| => AsciiLower(s[k]))
  }

  /** The suffix of `name` starting at the last '.' of its final path
      element, or "" when that element has no '.'. */
  function Ext(name: string): (r: string)
    ensures |r| <= |name| && r == name[|name| - |r|..]
    ensures r != [] ==> r[0] == '.' && forall k :: 0 < k < |r| ==> r[k] != '.' && r[k] != '/'
    ensures r == [] ==> forall k :: 0 <= k < |name| && name[k] == '.' ==>
                          exists j :: k < j < |name| && name[j] == '/'
  {
    if name == [] then []
    else
      var c := name[|name| - 1];
      if c == '/' then []
      else if c == '.' then "."
      else
        var e := Ext(name[..|name| - 1]);
        if e == [] then [] else e + [c]
  }

  /** The filter as the walks use it: every element lower-cased, order kept. */
  function LowerAll(exts: seq<string>): (r: seq<string>)
    ensures |r| == |exts|
    ensures forall k :: 0 <= k < |exts| ==> r[k] == ToLower(exts[k])
  {
    if exts == [] then [] else LowerAll(exts[..|exts| - 1]) + [ToLower(exts[|exts| - 1])]
  }

  /** A file passes the filter when the filter is empty or the lower-cased
      extension of its name equals some element. */
  predicate MatchesFilter(exts: seq<string>, name: string) {
    |exts| == 0 || exists k :: 0 <= k < |exts| && exts[k] == ToLower(Ext(name))
  }

  /** The `matched` loop of the copy walks: scan the filter, stop at the
      first element equal to the lower-cased extension. */
  method Matched(exts: seq<string>, name: string) returns (matched: bool)
    ensures matched <==> MatchesFilter(exts, name)
  {
    matched := false;
    if |exts| > 0 {
      var ext := ToLower(Ext(name));
      var i := 0;
      while i < |exts|
        invariant 0 <= i <= |exts|
        invariant !matched
        invariant forall k :: 0 <= k < i ==> exts[k] != ext
      {
        if exts[i] == ext {
          matched := true;
          break;
        }
        i := i + 1;
      }
    } else {
      matched := true;
    }
  }

  /** Lower-casing commutes with taking the extension: neither '.' nor '/'
      is an upper-case letter. */
  lemma {:induction false} ExtOfLower(name: string)
    ensures Ext(ToLower(name)) == ToLower(Ext(name))
  {
    if name != [] {
      var init, c := name[..|name| - 1], name[|name| - 1];
      var low := ToLower(name);
      var d := AsciiLower(c);
      assert low[|low| - 1] == d;
      assert low[..|low| - 1] == ToLower(init);
      assert (c == '/') == (d == '/') && (c == '.') == (d == '.');
      if c == '/' {
        assert Ext(low) == [] == Ext(name);
      } else if c == '.' {
        assert Ext(low) == "." == Ext(name);
        assert ToLower(".") == ".";
      } else {
        ExtOfLower(init);
        var e := Ext(init);
        assert Ext(name) == if e == [] then [] else e + [c];
        assert Ext(low[..|low| - 1]) == ToLower(e);
        assert Ext(low) == if ToLower(e) == [] then [] else ToLower(e) + [d];
        if e != [] {
          assert ToLower(e + [c]) == ToLower(e) + [d];
        }
      }
    }
  }

  lemma ToLowerIdempotent(s: string)
    ensures ToLower(ToLower(s)) == ToLower(s)
  {
  }

  /** Matching against a lower-cased filter ignores the case of both the
      filter elements and the file name. */
  lemma FilterIgnoresCase(exts: seq<string>, exts': seq<string>, name: string, name': string)
    requires LowerAll(exts) == LowerAll(exts')
    requires ToLower(name) == ToLower(name')
    ensures MatchesFilter(LowerAll(exts), name) <==> MatchesFilter(LowerAll(exts'), name')
  {
    ExtOfLower(name);
    ExtOfLower(name');
    ToLowerIdempotent(Ext(name));
    ToLowerIdempotent(Ext(name'));
  }

  /** Only the set of filter elements matters: order and repetitions do not,
      and an empty filter passes every name. */
  lemma FilterIsASet(exts: seq<string>, exts': seq<string>, name: string)
    requires |exts| > 0 <==> |exts'| > 0
    requires forall x :: x in exts <==> x in exts'
    ensures MatchesFilter(exts, name) <==> MatchesFilter(exts', name)
  {
    var ext := ToLower(Ext(name));
    if MatchesFilter(exts, name) && |exts| > 0 {
      var k :| 0 <= k < |exts| && exts[k] == ext;
      assert exts[k] in exts';
    }
    if MatchesFilter(exts', name) && |exts'| > 0 {
      var k :| 0 <= k < |exts'| && exts'[k] == ext;
      assert exts'[k] in exts;
    }
  }

  /** The element "" passes every name without a '.'. */
  lemma EmptyElementMatchesExtensionless(exts: seq<string>, name: string)
    requires "" in exts
    requires forall k :: 0 <= k < |name| ==> name[k] != '.'
    ensures MatchesFilter(exts, name)
  {
    var k :| 0 <= k < |exts| && exts[k] == "";
  }
}
