/**
 The two line readers of the scanner: the requirements manifest becomes a
 sequence of bare package names, the allowlist a set of lower-case names.
 A file is given as the sequence of its lines.
 */
module Manifest {
  import opened Text

  const CommentMarker: char := '#'
  const VersionPin: string := "=="

  /** A line that carries a name: non-blank once stripped and not a comment. */
  predicate IsEntry(line: string) {
    var s := Strip(line);
    s != [] && s[0] != CommentMarker
  }

  /** The name a requirements line declares: the stripped line up to its first `==`. */
  function RequirementName(line: string): string {
    SplitHead(Strip(line), VersionPin)
  }

  /** The name an allowlist line contributes: the stripped line in lower case. */
  function AllowlistName(line: string): string {
    Lower(Strip(line))
  }

  /** `p` is the requirement name of one of the entry lines of `lines`. */
  predicate DeclaredBy(lines: seq<string>, p: string) {
    exists i :: 0 <= i < |lines| && IsEntry(lines[i]) && p == RequirementName(lines[i])
  }

  /** The names of the entry lines, in file order. */
  function Names(lines: seq<string>): seq<string> {
    if lines == [] then []
    else (if IsEntry(lines[0]) then [RequirementName(lines[0])] else []) + Names(lines[1..])
  }

  /** `load_requirements`: one name per entry line, in file order. */
  function LoadRequirements(lines: seq<string>): (packages: seq<string>)
    ensures |packages| <= |lines|
    ensures forall k :: 0 <= k < |packages| ==> !Contains(packages[k], VersionPin)
    ensures forall p :: p in packages <==> DeclaredBy(lines, p)
  {
    NamesDeclared(lines);
    Names(lines)
  }

  lemma {:induction false} NamesDeclared(lines: seq<string>)
    ensures |Names(lines)| <= |lines|
    ensures forall k :: 0 <= k < |Names(lines)| ==> !Contains(Names(lines)[k], VersionPin)
    ensures forall p :: p in Names(lines) <==> DeclaredBy(lines, p)
    decreases |lines|
  {
    if lines != [] {
      NamesDeclared(lines[1..]);
      DeclaredByCons(lines);
    }
  }

  /** The names of a non-empty sequence of lines: those of its first line and of the rest. */
  lemma DeclaredByCons(lines: seq<string>)
    requires lines != []
    ensures forall p :: DeclaredBy(lines, p) <==>
              (IsEntry(lines[0]) && p == RequirementName(lines[0])) || DeclaredBy(lines[1..], p)
  {
    forall p | DeclaredBy(lines[1..], p)
      ensures DeclaredBy(lines, p)
    {
      var i :| 0 <= i < |lines[1..]| && IsEntry(lines[1..][i]) && p == RequirementName(lines[1..][i]);
      assert lines[1..][i] == lines[i + 1];
    }
    forall p | DeclaredBy(lines, p) && !(IsEntry(lines[0]) && p == RequirementName(lines[0]))
      ensures DeclaredBy(lines[1..], p)
    {
      var i :| 0 <= i < |lines| && IsEntry(lines[i]) && p == RequirementName(lines[i]);
      assert i > 0 && lines[i] == lines[1..][i - 1];
    }
  }

  /** Reading a file line by line: a further line adds its name, if it has
      one, after all names read so far and changes none of them. */
  lemma {:induction false} LoadRequirementsLineByLine(lines: seq<string>, line: string)
    ensures LoadRequirements(lines + [line])
         == LoadRequirements(lines) + (if IsEntry(line) then [RequirementName(line)] else [])
    decreases |lines|
  {
    if lines == [] {
      assert [] + [line] == [line];
    } else {
      var head := if IsEntry(lines[0]) then [RequirementName(lines[0])] else [];
      var tail := if IsEntry(line) then [RequirementName(line)] else [];
      calc {
        Names(lines + [line]);
        { assert (lines + [line])[0] == lines[0];
          assert (lines + [line])[1..] == lines[1..] + [line]; }
        head + Names(lines[1..] + [line]);
        { LoadRequirementsLineByLine(lines[1..], line); }
        head + (Names(lines[1..]) + tail);
        (head + Names(lines[1..])) + tail;
        Names(lines) + tail;
      }
    }
  }

  /** `x` is the allowlist name of one of the entry lines of `lines`. */
  predicate NamedBy(lines: seq<string>, x: string) {
    exists i :: 0 <= i < |lines| && IsEntry(lines[i]) && x == AllowlistName(lines[i])
  }

  /** `load_allowlist`: the lower-cased entry lines, collected into a set. */
  function LoadAllowlist(lines: seq<string>): (allowlist: set<string>)
    ensures forall x :: x in allowlist <==> NamedBy(lines, x)
    ensures forall x :: x in allowlist ==> x != [] && x[0] != CommentMarker && IsLowerCase(x)
  {
    if lines == [] then {}
    else
      var rest := LoadAllowlist(lines[1..]);
      NamedByCons(lines);
      if IsEntry(lines[0]) then
        AllowlistNameWellFormed(lines[0]);
        {AllowlistName(lines[0])} + rest
      else
        rest
  }

  /** An entry line's allowlist name is non-empty, not a comment and in lower case. */
  lemma AllowlistNameWellFormed(line: string)
    requires IsEntry(line)
    ensures var x := AllowlistName(line); x != [] && x[0] != CommentMarker && IsLowerCase(x)
  {
  }

  /** The names of a non-empty sequence of lines: those of its first line and of the rest. */
  lemma NamedByCons(lines: seq<string>)
    requires lines != []
    ensures forall x :: NamedBy(lines, x) <==>
              (IsEntry(lines[0]) && x == AllowlistName(lines[0])) || NamedBy(lines[1..], x)
  {
    forall x | NamedBy(lines[1..], x)
      ensures NamedBy(lines, x)
    {
      var i :| 0 <= i < |lines[1..]| && IsEntry(lines[1..][i]) && x == AllowlistName(lines[1..][i]);
      assert lines[1..][i] == lines[i + 1];
    }
    forall x | NamedBy(lines, x) && !(IsEntry(lines[0]) && x == AllowlistName(lines[0]))
      ensures NamedBy(lines[1..], x)
    {
      var i :| 0 <= i < |lines| && IsEntry(lines[i]) && x == AllowlistName(lines[i]);
      assert i > 0 && lines[i] == lines[1..][i - 1];
    }
  }

  /** The allowlist does not depend on how its lines are split between two reads. */
  lemma {:induction false} LoadAllowlistUnion(a: seq<string>, b: seq<string>)
    ensures LoadAllowlist(a + b) == LoadAllowlist(a) + LoadAllowlist(b)
    decreases |a|
  {
    if a == [] {
      assert [] + b == b;
    } else {
      assert (a + b)[1..] == a[1..] + b;
      LoadAllowlistUnion(a[1..], b);
    }
  }
}
