/** What a command's execute hands back, and the message formatting the commands use. */
module Commands {

  /**
   * A failure message: a literal text, or one of the constants of the
   * Messages class, whose text is not part of this model.
   */
  datatype Message =
    | Text(text: string)
    | InvalidTaskDisplayedIndex
    | NoTaskSelected

  /**
   * How execute ends: with a CommandResult carrying its feedback, with a
   * CommandException carrying its message, or with the
   * IndexOutOfBoundsException that List.get throws for a bad position.
   */
  datatype CommandResult =
    | Done(feedback: string)
    | Failed(message: Message)
    | IndexOutOfBounds

  const PLACEHOLDER := "%1$s"

  /** PLACEHOLDER <= t, character by character. */
  predicate StartsWithPlaceholder(t: string) {
    |t| >= 4 && t[0] == '%' && t[1] == '1' && t[2] == '$' && t[3] == 's'
  }

  /**
   * String.format for the one specifier the message templates use: every
   * %1$s in template becomes arg, every other character is kept.
   */
  function Format(template: string, arg: string): string
    decreases |template|
  {
    if template == [] then []
    else if StartsWithPlaceholder(template) then
      arg + Format(template[|PLACEHOLDER|..], arg)
    else
      assert template == [template[0]] + template[1..];
      [template[0]] + Format(template[1..], arg)
  }

  /** A character other than % is copied, and formatting goes on with the rest. */
  lemma FormatPlainStep(c: char, rest: string, arg: string)
    requires c != '%'
    ensures Format([c] + rest, arg) == [c] + Format(rest, arg)
  {
    var t := [c] + rest;
    assert t[0] == c && t[1..] == rest;
  }

  /** The placeholder alone formats to the argument. */
  lemma FormatPlaceholderAlone(arg: string)
    ensures Format(PLACEHOLDER, arg) == arg
  {
    assert StartsWithPlaceholder(PLACEHOLDER);
    assert PLACEHOLDER[|PLACEHOLDER|..] == [];
    assert arg + [] == arg;
  }

  /** A template without a placeholder comes back unchanged, whatever the argument. */
  lemma {:induction false} FormatKeepsPlainText(template: string, arg: string)
    requires '%' !in template
    ensures Format(template, arg) == template
    decreases |template|
  {
    if template != [] {
      var c, rest := template[0], template[1..];
      assert template == [c] + rest;
      assert '%' !in rest by {
        assert forall x :: x in rest ==> x in template;
      }
      FormatKeepsPlainText(rest, arg);
      FormatPlainStep(c, rest, arg);
    }
  }

  /** A template that ends in its only placeholder formats to its text followed by arg. */
  lemma {:induction false} FormatTrailingPlaceholder(prefix: string, arg: string)
    requires '%' !in prefix
    ensures Format(prefix + PLACEHOLDER, arg) == prefix + arg
    decreases |prefix|
  {
    if prefix == [] {
      assert prefix + PLACEHOLDER == PLACEHOLDER;
      FormatPlaceholderAlone(arg);
    } else {
      var c, rest := prefix[0], prefix[1..];
      assert prefix == [c] + rest;
      assert '%' !in rest by {
        assert forall x :: x in rest ==> x in prefix;
      }
      FormatTrailingPlaceholder(rest, arg);
      FormatTrailingStep(c, rest, arg);
    }
  }

  /** The inductive step: a character other than % in front of the template lands in front of the result. */
  lemma FormatTrailingStep(c: char, rest: string, arg: string)
    requires c != '%' && Format(rest + PLACEHOLDER, arg) == rest + arg
    ensures Format([c] + rest + PLACEHOLDER, arg) == [c] + rest + arg
  {
    assert [c] + rest + PLACEHOLDER == [c] + (rest + PLACEHOLDER);
    FormatPlainStep(c, rest + PLACEHOLDER, arg);
    assert [c] + (rest + arg) == [c] + rest + arg;
  }
}
