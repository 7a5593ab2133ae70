/** The rewrite of the administrator's line in the shadow file. */
module ShadowEdit {
  import opened Common

  /** `str.split`: always one part more than there are separators. */
  function Split(s: string, sep: char): (r: seq<string>)
    ensures r != []
    ensures forall part <- r :: sep !in part
  {
    if s == "" then [""]
    else
      var rest := Split(s[1..], sep);
      if s[0] == sep then [""] + rest
      else
        assert sep !in [s[0]] + rest[0];
        [[s[0]] + rest[0]] + rest[1..]
  }

  function Join(parts: seq<string>, sep: char): string
    requires parts != []
  {
    if |parts| == 1 then parts[0] else parts[0] + [sep] + Join(parts[1..], sep)
  }

  lemma {:induction false} JoinSplit(s: string, sep: char)
    ensures Join(Split(s, sep), sep) == s
  {
    if s != "" {
      JoinSplit(s[1..], sep);
      var rest := Split(s[1..], sep);
      var all := Split(s, sep);
      if s[0] == sep {
        assert all[1..] == rest;
      } else {
        assert all[0] == [s[0]] + rest[0] && all[1..] == rest[1..];
        assert Join(all, sep) == [s[0]] + Join(rest, sep);
      }
      assert s == [s[0]] + s[1..];
    }
  }

  lemma {:induction false} SplitPart(p: string, s: string, sep: char)
    requires sep !in p
    ensures Split(p + [sep] + s, sep) == [p] + Split(s, sep)
  {
    var t := p + [sep] + s;
    if p == "" {
      assert t[1..] == s;
    } else {
      assert t[1..] == p[1..] + [sep] + s;
      SplitPart(p[1..], s, sep);
      assert p == [p[0]] + p[1..];
    }
  }

  lemma {:induction false} SplitWhole(p: string, sep: char)
    requires sep !in p
    ensures Split(p, sep) == [p]
  {
    if p != "" {
      SplitWhole(p[1..], sep);
      assert p == [p[0]] + p[1..];
    }
  }

  lemma {:induction false} SplitJoin(parts: seq<string>, sep: char)
    requires parts != [] && forall p <- parts :: sep !in p
    ensures Split(Join(parts, sep), sep) == parts
  {
    if |parts| == 1 {
      SplitWhole(parts[0], sep);
      assert parts == [parts[0]];
    } else {
      SplitJoin(parts[1..], sep);
      SplitPart(parts[0], Join(parts[1..], sep), sep);
      assert parts == [parts[0]] + parts[1..];
    }
  }

  /** `splitlines`, for files whose only line break is the newline. */
  function Lines(text: string): (r: seq<string>)
    ensures forall line <- r :: '\n' !in line
  {
    var parts := Split(text, '\n');
    if parts[|parts| - 1] == "" then parts[..|parts| - 1] else parts
  }

  /** What the rewritten file holds, read back line by line. */
  lemma LinesOfJoin(out: seq<string>)
    requires out != [] && forall line <- out :: '\n' !in line
    ensures Lines(Join(out, '\n') + "\n") == out
    ensures out[|out| - 1] != "" ==> Lines(Join(out, '\n')) == out
  {
    var parts := out + [""];
    JoinEnd(out);
    SplitJoin(parts, '\n');
    assert parts[..|parts| - 1] == out;
    SplitJoin(out, '\n');
  }

  lemma {:induction false} JoinEnd(out: seq<string>)
    requires out != []
    ensures Join(out + [""], '\n') == Join(out, '\n') + "\n"
  {
    var parts := out + [""];
    if |out| == 1 {
      assert parts[1..] == [""];
    } else {
      assert parts[1..] == out[1..] + [""];
      JoinEnd(out[1..]);
    }
  }

  predicate IsUserLine(line: string, user: string) {
    user + ":" <= line
  }

  /** The line is the user's if its first of several fields is that name. */
  lemma UserLineIs(line: string, user: string)
    requires ':' !in user
    ensures IsUserLine(line, user) <==> |Split(line, ':')| >= 2 && Split(line, ':')[0] == user
  {
    if IsUserLine(line, user) {
      assert line == user + [':'] + line[|user| + 1..];
      SplitPart(user, line[|user| + 1..], ':');
    }
    var parts := Split(line, ':');
    if |parts| >= 2 && parts[0] == user {
      JoinSplit(line, ':');
      assert line[..|user| + 1] == user + ":";
    }
  }

  /** The edit proper; None is the IndexError of a line with fewer than three fields. */
  function EditLine(line: string, user: string, hash: string, force: bool): Option<string> {
    if !IsUserLine(line, user) then Some(line)
    else
      var parts := Split(line, ':');
      if |parts| < 3 then None
      else Some(Join(parts[1 := hash][2 := if force then "0" else parts[2]], ':'))
  }

  /** Field by field: only the hash and, if forced, the date of the last change are new, and the
      line still belongs to the same user. */
  lemma EditLineFields(line: string, user: string, hash: string, force: bool)
    requires ':' !in user && ':' !in hash
    requires IsUserLine(line, user) && |Split(line, ':')| >= 3
    ensures var parts := Split(line, ':');
            var edited := EditLine(line, user, hash, force);
            && edited.Some? && parts[0] == user
            && Split(edited.value, ':') == parts[1 := hash][2 := if force then "0" else parts[2]]
  {
    var parts := Split(line, ':');
    var after := parts[1 := hash][2 := if force then "0" else parts[2]];
    SplitJoin(after, ':');
    assert line == user + [':'] + line[|user| + 1..];
    SplitPart(user, line[|user| + 1..], ':');
  }

  lemma EditLineKeepsLine(line: string, user: string, hash: string, force: bool)
    requires '\n' !in line && '\n' !in hash
    ensures var edited := EditLine(line, user, hash, force); edited.Some? ==> '\n' !in edited.value
  {
    var parts := Split(line, ':');
    if IsUserLine(line, user) && |parts| >= 3 {
      forall p <- parts
        ensures '\n' !in p
      {
        JoinSplit(line, ':');
        PartOfJoin(parts, ':', '\n');
      }
      NotInJoin(parts[1 := hash][2 := if force then "0" else parts[2]], ':', '\n');
    }
  }

  lemma {:induction false} PartOfJoin(parts: seq<string>, sep: char, c: char)
    requires parts != [] && c !in Join(parts, sep)
    ensures forall p <- parts :: c !in p
  {
    if |parts| > 1 {
      var j := Join(parts, sep);
      assert forall x <- parts[0] :: x in j;
      assert forall x <- Join(parts[1..], sep) :: x in j;
      PartOfJoin(parts[1..], sep, c);
      assert parts == [parts[0]] + parts[1..];
    }
  }

  lemma {:induction false} NotInJoin(parts: seq<string>, sep: char, c: char)
    requires parts != [] && c != sep && forall p <- parts :: c !in p
    ensures c !in Join(parts, sep)
  {
    if |parts| > 1 {
      NotInJoin(parts[1..], sep, c);
    }
  }

  /** What the rewriting does to a line, field by field. */
  ghost predicate Edited(was: string, now: string, user: string, hash: string, force: bool) {
    var before, after := Split(was, ':'), Split(now, ':');
    if |before| >= 2 && before[0] == user then
      && |before| >= 3 && |after| == |before| && after[1] == hash && after[2] == (if force then "0" else before[2])
      && forall k :: 0 <= k < |before| && k != 1 && k != 2 ==> after[k] == before[k]
    else now == was
  }

  lemma EditedByFields(was: string, now: string, user: string, hash: string, force: bool)
    requires ':' !in user && ':' !in hash && EditLine(was, user, hash, force) == Some(now)
    ensures Edited(was, now, user, hash, force)
  {
    UserLineIs(was, user);
    if IsUserLine(was, user) {
      EditLineFields(was, user, hash, force);
    }
  }

  datatype Rewrite = Untouched | Rewritten(text: string) | IndexError

  predicate HasUser(lines: seq<string>, user: string) {
    exists line <- lines :: IsUserLine(line, user)
  }

  /** The loop over the lines.  The file is rewritten exactly when it has a line of that user and all
      of those have three fields; read back, it then differs line by line as `EditLine` says. */
  method RewriteShadow(text: string, user: string, hash: string, force: bool) returns (r: Rewrite)
    requires '\n' !in hash
    ensures r.Untouched? <==> !HasUser(Lines(text), user)
    ensures r.IndexError? <==> exists line <- Lines(text) :: EditLine(line, user, hash, force).None?
    ensures r.Rewritten? ==>
              && |Lines(r.text)| == |Lines(text)|
              && forall i :: 0 <= i < |Lines(text)| ==>
                   EditLine(Lines(text)[i], user, hash, force) == Some(Lines(r.text)[i])
    ensures r.Rewritten? && ':' !in user && ':' !in hash ==>
              forall i :: 0 <= i < |Lines(text)| ==> Edited(Lines(text)[i], Lines(r.text)[i], user, hash, force)
    ensures r.Untouched? && ':' !in user ==>
              forall line <- Lines(text) :: |Split(line, ':')| >= 2 ==> Split(line, ':')[0] != user
  {
    var lines := Lines(text);
    var found, out := false, [];
    for i := 0 to |lines|
      invariant |out| == i && forall line <- out :: '\n' !in line
      invariant found <==> HasUser(lines[..i], user)
      invariant forall k :: 0 <= k < i ==> EditLine(lines[k], user, hash, force) == Some(out[k])
    {
      var line := lines[i];
      assert lines[..i + 1] == lines[..i] + [line];
      EditLineKeepsLine(line, user, hash, force);
      if IsUserLine(line, user) {
        var parts := Split(line, ':');
        if |parts| < 3 {
          assert EditLine(line, user, hash, force).None?;
          return IndexError;
        }
        parts := parts[1 := hash];
        parts := parts[2 := if force then "0" else parts[2]];
        line := Join(parts, ':');
        found := true;
      }
      out := out + [line];
    }
    assert lines[..|lines|] == lines;
    if !found {
      if ':' !in user {
        forall line <- lines
          ensures |Split(line, ':')| >= 2 ==> Split(line, ':')[0] != user
        {
          UserLineIs(line, user);
        }
      }
      return Untouched;
    }
    LinesOfJoin(out);
    if ':' !in user && ':' !in hash {
      forall i | 0 <= i < |lines|
        ensures Edited(lines[i], out[i], user, hash, force)
      {
        EditedByFields(lines[i], out[i], user, hash, force);
      }
    }
    r := Rewritten(Join(out, '\n') + "\n");
  }
}
