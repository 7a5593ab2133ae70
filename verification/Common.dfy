/** Result and failure types shared by every component model. */
module Common {

  datatype Option<+T> = None | Some(value: T)

  /** How a call that acts on the machine ended: it returned, it raised an exception, or the
      machine lost power while it was running.  An exception can be caught; a power cut cannot. */
  datatype Outcome = Done | Raised | Crashed {
    predicate IsFailure() {
      !Done?
    }

    function PropagateFailure(): Outcome
      requires IsFailure()
    {
      this
    }
  }

  /** The names a resolved root path consists of; none for `/` itself. */
  type Root = seq<string>

  /** Neither `/` nor a directory right below it. */
  predicate SafeRoot(root: Root) {
    |root| >= 2
  }

  /** What Python's `isspace` and the class `\s` of its regular expressions accept. */
  predicate IsSpace(c: char) {
    var n := c as int;
    || 9 <= n <= 13 || 28 <= n <= 32 || 0x2000 <= n <= 0x200A
    || n in {0x85, 0xA0, 0x1680, 0x2028, 0x2029, 0x202F, 0x205F, 0x3000}
  }

  /** They are these twenty-nine characters. */
  lemma SpacesAre(c: char)
    ensures IsSpace(c) <==>
            c as int in {
              0x09, 0x0A, 0x0B, 0x0C, 0x0D, 0x1C, 0x1D, 0x1E, 0x1F, 0x20, 0x85, 0xA0, 0x1680,
              0x2000, 0x2001, 0x2002, 0x2003, 0x2004, 0x2005, 0x2006, 0x2007, 0x2008, 0x2009, 0x200A,
              0x2028, 0x2029, 0x202F, 0x205F, 0x3000}
  {
  }

  /** What Python's text mode makes of line breaks when it reads: a carriage return, with or without
      the newline after it, becomes a newline. */
  function Translate(text: string): (r: string)
    ensures '\r' !in r
  {
    if text == "" then ""
    else if text[0] != '\r' then [text[0]] + Translate(text[1..])
    else "\n" + Translate(text[if |text| > 1 && text[1] == '\n' then 2 else 1..])
  }

  /** Each line break becomes one newline, whichever of the three it was, and nothing else changes. */
  lemma TranslateBreaks(rest: string)
    ensures Translate("\r\n" + rest) == "\n" + Translate(rest)
    ensures !("\n" <= rest) ==> Translate("\r" + rest) == "\n" + Translate(rest)
    ensures forall c: char :: c != '\r' ==> Translate([c] + rest) == [c] + Translate(rest)
  {
    assert ("\r\n" + rest)[2..] == rest;
    assert ("\r" + rest)[1..] == rest;
    forall c: char | c != '\r'
      ensures Translate([c] + rest) == [c] + Translate(rest)
    {
      assert ([c] + rest)[1..] == rest;
    }
  }

  /** Reading gives the text as it is stored exactly if it holds no carriage return. */
  lemma {:induction false} TranslateExact(text: string)
    ensures Translate(text) == text <==> '\r' !in text
  {
    if text != "" && text[0] != '\r' {
      TranslateExact(text[1..]);
      assert text == [text[0]] + text[1..];
      assert Translate(text)[1..] == Translate(text[1..]);
    }
  }
}
