/** Lines of a configuration file, and what they ask for. */
module ConfigText {
  import opened Options

  datatype Line = Skip | Assignment(name: string, value: string) | Directive(name: string, args: Option<string>)

  predicate IsBlank(c: char) {
    c == ' ' || c == '\t' || c == '\r' || c == '\n'
  }

  function TrimLeft(s: string): (r: string)
    ensures |r| <= |s| && (r != "" ==> !IsBlank(r[0]))
  {
    if s != "" && IsBlank(s[0]) then TrimLeft(s[1..]) else s
  }

  function TrimRight(s: string): (r: string)
    ensures r <= s && (r != "" ==> !IsBlank(r[|r| - 1]))
  {
    if s != "" && IsBlank(s[|s| - 1]) then TrimRight(s[..|s| - 1]) else s
  }

  /** Without blanks at either end. */
  function Trim(s: string): (r: string)
    ensures r != "" ==> !IsBlank(r[0]) && !IsBlank(r[|r| - 1])
  {
    TrimRight(TrimLeft(s))
  }

  /** The first place of a character, from a place on. */
  function Find(s: string, accept: char -> bool, from: nat): (pos: Option<nat>)
    ensures pos.Some? ==>
      from <= pos.value < |s| && accept(s[pos.value]) && forall i :: from <= i < pos.value ==> !accept(s[i])
    ensures pos.None? ==> forall i :: from <= i < |s| ==> !accept(s[i])
    decreases |s| - from
  {
    if from >= |s| then None else if accept(s[from]) then Some(from) else Find(s, accept, from + 1)
  }

  /** What one line asks for. */
  function Parse(line: string): Line {
    if line == "" || line[0] == '#' then Skip
    else if line[0] == '!' then
      match Find(line, c => c == ' ' || c == '\t', 1) {
        case Some(pos) => Directive(line[1..pos], Some(line[pos..]))
        case None => Directive(line[1..], None)
      }
    else
      match Find(line, c => c == '=', 0) {
        case Some(pos) => if Trim(line[..pos]) == "" then Skip else Assignment(Trim(line[..pos]), Trim(line[pos + 1..]))
        case None => Skip
      }
  }

  /** A written assignment is read back. */
  lemma AssignmentReads(name: string, value: string)
    requires name != "" && name[0] != '#' && name[0] != '!' && '=' !in name && Trim(name) == name
    ensures Parse(name + "=" + value) == Assignment(name, Trim(value))
  {
    var line := name + "=" + value;
    assert line[|name|] == '=' && forall i :: 0 <= i < |name| ==> line[i] == name[i];
    assert line[..|name|] == name && line[|name| + 1..] == value;
  }

  /** Only blanks. */
  predicate Blank(s: string) {
    forall c :: c in s ==> c in " \t\r\n"
  }

  lemma {:induction false} TrimLeftMeans(s: string) returns (n: nat)
    ensures n <= |s| && TrimLeft(s) == s[n..] && Blank(s[..n])
  {
    if s != "" && IsBlank(s[0]) {
      var m := TrimLeftMeans(s[1..]);
      n := m + 1;
      assert s[..n] == [s[0]] + s[1..][..m] && s[n..] == s[1..][m..];
    } else {
      n := 0;
    }
  }

  lemma {:induction false} TrimRightMeans(s: string)
    ensures Blank(s[|TrimRight(s)|..])
  {
    if s != "" && IsBlank(s[|s| - 1]) {
      var front := s[..|s| - 1];
      TrimRightMeans(front);
      assert s[|TrimRight(s)|..] == front[|TrimRight(front)|..] + [s[|s| - 1]];
    }
  }

  lemma FrontAndBack(s: string, n: nat, m: nat)
    requires n <= |s| && m <= |s| - n
    ensures s == s[..n] + s[n..][..m] + s[n..][m..]
  {
  }

  /** Trimming cuts blanks off both ends of a text, and nothing else, and leaves none there. */
  lemma TrimMeans(s: string) returns (front: string, back: string)
    ensures s == front + Trim(s) + back && Blank(front) && Blank(back)
    ensures Trim(s) != "" ==> !Blank([Trim(s)[0]]) && !Blank([Trim(s)[|Trim(s)| - 1]])
  {
    var n := TrimLeftMeans(s);
    var t := TrimLeft(s);
    TrimRightMeans(t);
    front, back := s[..n], t[|TrimRight(t)|..];
    FrontAndBack(s, n, |TrimRight(t)|);
    if Trim(s) != "" {
      assert Trim(s)[0] in [Trim(s)[0]] && Trim(s)[|Trim(s)| - 1] in [Trim(s)[|Trim(s)| - 1]];
    }
  }

  lemma {:induction false} TrimBlank(s: string)
    requires Blank(s)
    ensures Trim(s) == ""
  {
    if s != "" {
      assert s[0] in s;
      TrimBlank(s[1..]);
    }
  }

  /** A written directive is read back, with the rest of its line. */
  lemma DirectiveReads(name: string, args: string)
    requires ' ' !in name && '\t' !in name
    ensures Parse("!" + name + " " + args) == Directive(name, Some(" " + args)) && Trim(" " + args) == Trim(args)
  {
    var line := "!" + name + " " + args;
    assert line[0] == '!' && line[|name| + 1] == ' ';
    assert forall i :: 1 <= i < |name| + 1 ==> line[i] == name[i - 1];
    assert line[1..|name| + 1] == name && line[|name| + 1..] == " " + args;
    assert (" " + args)[1..] == args;
  }

  /** Comments, empty lines and lines without "=" ask for nothing. */
  lemma LinesSkipped(line: string)
    ensures line == "" || line[0] == '#' ==> Parse(line) == Skip
    ensures line != "" && line[0] != '!' && '=' !in line ==> Parse(line) == Skip
  {
  }

  /** So does a line without a name. */
  lemma NamelessSkipped(name: string, value: string)
    requires Blank(name)
    ensures Parse(name + "=" + value) == Skip
  {
    var line := name + "=" + value;
    TrimBlank(name);
    assert line[|name|] == '=' && line[..|name|] == name;
    assert forall i :: 0 <= i < |name| ==> line[i] == name[i] && name[i] in name;
  }
}
