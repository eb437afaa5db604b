/** src/telegraf-action-parts.js: a middleware that reads a text message of
    the form "!command argument" into ctx.state.action and then hands the
    update on. The pattern is ^!([^@\s]+)\s([^\s]+)$; its i flag changes
    nothing, since the pattern has no letters. */
module ActionParts {
  import opened Wrappers
  import opened JsNumber

  /** ctx.state.action: the whole text and its two parts. */
  datatype Action = Action(text: string, command: string, arg: string)

  /** No \s in s. */
  predicate NoSpace(s: string)
  {
    forall k :: 0 <= k < |s| ==> !IsWhitespace(s[k])
  }

  /** [^@\s]+ */
  predicate IsCommand(s: string)
  {
    |s| > 0 && NoSpace(s) && '@' !in s
  }

  /** [^\s]+ */
  predicate IsArg(s: string)
  {
    |s| > 0 && NoSpace(s)
  }

  /** The index of the first \s in s, or |s| without one. */
  function SpaceAt(s: string): (i: nat)
    ensures i <= |s| && NoSpace(s[..i])
    ensures i < |s| ==> IsWhitespace(s[i])
  {
    if s == [] || IsWhitespace(s[0]) then 0
    else
      var i := 1 + SpaceAt(s[1..]);
      assert s[..i] == [s[0]] + s[1..][..i - 1];
      i
  }

  /** regex.exec(text): the command runs from after '!' to the first \s,
      which is the one separator, and the argument is the whole rest. */
  function ParseAction(text: string): (r: Option<Action>)
    ensures r.Some? ==> r.value.text == text && IsCommand(r.value.command) && IsArg(r.value.arg)
    ensures r.Some? ==> exists w :: IsWhitespace(w) && text == "!" + r.value.command + [w] + r.value.arg
  {
    if text == [] || text[0] != '!' then None
    else
      var rest := text[1..];
      var n := SpaceAt(rest);
      if n == 0 || n == |rest| then None
      else
        var command, arg := rest[..n], rest[n + 1..];
        if '@' in command || !IsArg(arg) then None
        else
          assert text == "!" + command + [rest[n]] + arg;
          Some(Action(text, command, arg))
  }

  /** Every "!" + command + one \s + argument is read back into exactly
      those parts. */
  lemma ParseActionComplete(command: string, w: char, arg: string)
    requires IsCommand(command) && IsWhitespace(w) && IsArg(arg)
    ensures ParseAction("!" + command + [w] + arg) == Some(Action("!" + command + [w] + arg, command, arg))
  {
    var text := "!" + command + [w] + arg;
    var rest := text[1..];
    assert text[0] == '!';
    assert rest == command + ([w] + arg);
    SpaceAtPrefix(command, [w] + arg);
    assert SpaceAt(rest) == |command|;
    assert rest[..|command|] == command;
    assert rest[|command| + 1..] == arg;
  }

  lemma {:induction false} SpaceAtPrefix(a: string, b: string)
    requires NoSpace(a) && b != [] && IsWhitespace(b[0])
    ensures SpaceAt(a + b) == |a|
    decreases |a|
  {
    if a == [] {
      assert a + b == b;
    } else {
      var s := a + b;
      assert s != [] && s[0] == a[0] && !IsWhitespace(a[0]);
      assert s[1..] == a[1..] + b;
      assert NoSpace(a[1..]) by {
        forall k | 0 <= k < |a| - 1 ensures !IsWhitespace(a[1..][k]) { assert a[1..][k] == a[k + 1]; }
      }
      SpaceAtPrefix(a[1..], b);
      assert SpaceAt(s) == 1 + SpaceAt(s[1..]);
    }
  }

  /** After a valid command and one \s, an argument that is empty or holds
      a \s gives no action: two or more separators, or a space inside the
      argument, never match. */
  lemma ParseActionRejectsArg(command: string, w: char, arg: string)
    requires IsCommand(command) && IsWhitespace(w) && !IsArg(arg)
    ensures ParseAction("!" + command + [w] + arg) == None
  {
    var text := "!" + command + [w] + arg;
    var rest := text[1..];
    assert text[0] == '!';
    assert rest == command + ([w] + arg);
    SpaceAtPrefix(command, [w] + arg);
    assert SpaceAt(rest) == |command|;
    assert rest[|command| + 1..] == arg;
  }

  /** The case of two separators in a row, spelled out. */
  lemma ParseActionOneSeparator(command: string, w1: char, w2: char, arg: string)
    requires IsCommand(command) && IsWhitespace(w1) && IsWhitespace(w2)
    ensures ParseAction("!" + command + [w1, w2] + arg) == None
  {
    assert !NoSpace([w2] + arg) by { assert ([w2] + arg)[0] == w2; }
    ParseActionRejectsArg(command, w1, [w2] + arg);
    assert "!" + command + [w1, w2] + arg == "!" + command + [w1] + ([w2] + arg);
  }

  /** A text message in, or something else (None); what the middleware
      reads and writes; and how often next() has been called. */
  class Context {
    var text: Option<string>
    var action: Option<Action>
    var nextCalls: nat

    constructor (text: Option<string>, action: Option<Action>)
      ensures this.text == text && this.action == action && nextCalls == 0
    {
      this.text := text;
      this.action := action;
      nextCalls := 0;
    }

    /** next(): hand the update to the next middleware. */
    method Next()
      modifies this
      ensures text == old(text) && action == old(action) && nextCalls == old(nextCalls) + 1
    {
      nextCalls := nextCalls + 1;
    }
  }

  /** The middleware as mounted on 'text' updates: other updates go straight
      to next(); a text that matches sets ctx.state.action; in every case
      next() is called exactly once and nothing else changes. */
  method Middleware(ctx: Context)
    modifies ctx
    ensures ctx.text == old(ctx.text)
    ensures ctx.nextCalls == old(ctx.nextCalls) + 1
    ensures old(ctx.text).Some? && ParseAction(old(ctx.text).value).Some? ==>
              ctx.action == ParseAction(old(ctx.text).value)
    ensures (old(ctx.text).None? || ParseAction(old(ctx.text).value).None?) ==> ctx.action == old(ctx.action)
  {
    if ctx.text.None? {
      ctx.Next();
      return;
    }
    var parts := ParseAction(ctx.text.value);
    if parts.None? {
      ctx.Next();
      return;
    }
    ctx.action := parts;
    ctx.Next();
  }
}
