/** The text of a directory: the names it lists, each ended by a newline. */
module DirectoryText {
  import opened CString

  /** Where the entry that starts at `i` ends. */
  function LineEnd(text: string, i: nat): (e: nat)
    requires i <= |text|
    ensures i <= e <= |text|
    ensures forall k :: i <= k < e ==> text[k] != '\n' && text[k] != '\0'
    ensures e == |text| || text[e] == '\n' || text[e] == '\0'
    decreases |text| - i
  {
    if i == |text| || text[i] == '\n' || text[i] == '\0' then i else LineEnd(text, i + 1)
  }

  /** The entries that get_next_entry yields one after the other. */
  function Lines(text: string): seq<string>
    decreases |text|
  {
    if text == "" then []
    else
      var e := LineEnd(text, 0);
      [text[..e]] + if e < |text| then Lines(text[e + 1..]) else []
  }

  function Join(names: seq<string>): string {
    if names == [] then "" else names[0] + "\n" + Join(names[1..])
  }

  predicate Plain(name: string) { '\n' !in name && '\0' !in name }

  predicate Terminated(text: string) { text == "" || text[|text| - 1] == '\n' }

  function Without(names: seq<string>, name: string): seq<string> {
    if names == [] then []
    else (if names[0] == name then [] else [names[0]]) + Without(names[1..], name)
  }

  predicate NoDup(names: seq<string>) { forall i, j :: 0 <= i < j < |names| ==> names[i] != names[j] }

  lemma {:induction false} LinesPlain(text: string)
    requires '\0' !in text
    ensures forall n :: n in Lines(text) ==> Plain(n)
    decreases |text|
  {
    if text != "" {
      var e := LineEnd(text, 0);
      assert Plain(text[..e]);
      if e < |text| { LinesPlain(text[e + 1..]); }
    }
  }

  /** Listing a directory text written from plain names gives those names back, in order. */
  lemma {:induction false} LinesOfJoin(names: seq<string>)
    requires forall n :: n in names ==> Plain(n)
    ensures Lines(Join(names)) == names && Terminated(Join(names)) && '\0' !in Join(names)
  {
    if names != [] {
      var n, rest := names[0], Join(names[1..]);
      assert Plain(n);
      LinesOfJoin(names[1..]);
      var text := n + "\n" + rest;
      var e := LineEnd(text, 0);
      assert forall k :: 0 <= k < |n| ==> text[k] == n[k];
      assert text[|n|] == '\n';
      assert e == |n|;
      assert text[..e] == n && text[e + 1..] == rest;
      assert names == [n] + names[1..];
    }
  }

  lemma JoinCons(name: string, names: seq<string>)
    ensures Join([name] + names) == name + "\n" + Join(names)
  {
    assert ([name] + names)[1..] == names;
  }

  lemma CutAt(text: string, e: nat)
    requires e < |text| && text[e] == '\n'
    ensures text == text[..e] + "\n" + text[e + 1..]
  {
  }

  lemma FirstLine(text: string)
    requires Terminated(text) && '\0' !in text && text != ""
    ensures LineEnd(text, 0) < |text| && text[LineEnd(text, 0)] == '\n'
  {
    assert text[|text| - 1] == '\n';
  }

  lemma TailTerminated(text: string, i: nat)
    requires Terminated(text) && '\0' !in text && i <= |text|
    ensures Terminated(text[i..]) && '\0' !in text[i..]
  {
    if i < |text| { assert text[i..][|text| - i - 1] == text[|text| - 1]; }
  }

  /** Conversely every terminated text is the join of its own entries. */
  lemma {:induction false} JoinOfLines(text: string)
    requires Terminated(text) && '\0' !in text
    ensures Join(Lines(text)) == text
    decreases |text|
  {
    if text != "" {
      var e := LineEnd(text, 0);
      FirstLine(text);
      CutAt(text, e);
      TailTerminated(text, e + 1);
      JoinOfLines(text[e + 1..]);
      JoinCons(text[..e], Lines(text[e + 1..]));
    }
  }

  lemma {:induction false} JoinSnoc(names: seq<string>, name: string)
    ensures Join(names + [name]) == Join(names) + name + "\n"
  {
    if names == [] {
      assert [name][1..] == [];
      assert Join([name]) == name + "\n" + "";
    } else {
      JoinSnoc(names[1..], name);
      assert (names + [name])[1..] == names[1..] + [name];
      assert (names + [name])[0] == names[0];
      var a, b := names[0] + "\n", Join(names[1..]);
      assert a + (b + name + "\n") == (a + b) + name + "\n";
    }
  }

  /** Appending one entry to a well formed text. */
  lemma LinesSnoc(text: string, name: string)
    requires Terminated(text) && '\0' !in text && Plain(name)
    ensures Lines(text + (name + "\n")) == Lines(text) + [name]
    ensures Terminated(text + (name + "\n")) && '\0' !in text + (name + "\n")
  {
    JoinOfLines(text);
    LinesPlain(text);
    JoinSnoc(Lines(text), name);
    LinesOfJoin(Lines(text) + [name]);
    assert Join(Lines(text)) + name + "\n" == text + (name + "\n");
  }

  lemma {:induction false} WithoutMember(names: seq<string>, name: string)
    ensures forall n :: n in Without(names, name) <==> n in names && n != name
    ensures NoDup(names) ==> NoDup(Without(names, name))
    ensures |Without(names, name)| <= |names| && |Join(Without(names, name))| <= |Join(names)|
  {
    if names != [] {
      var rest := Without(names[1..], name);
      WithoutMember(names[1..], name);
      assert names == [names[0]] + names[1..];
      if names[0] != name {
        assert Without(names, name)[1..] == rest;
        if NoDup(names) {
          assert NoDup(names[1..]);
          assert names[0] !in names[1..];
        }
      } else {
        assert Without(names, name) == rest;
        if NoDup(names) { assert NoDup(names[1..]); }
      }
    }
  }

  lemma LineEndShift(text: string, i: nat)
    requires i <= |text|
    ensures LineEnd(text, i) == i + LineEnd(text[i..], 0)
  {
    var a, b := LineEnd(text, i), LineEnd(text[i..], 0);
    assert forall k :: 0 <= k < b ==> text[i..][k] == text[i + k];
  }
}
