/**
 * The command recognition of `main` (dz12.py, lines 244-328): one input
 * line, lowered, is matched against the commands in the order of the
 * `if`/`elif` chain, and its tokens are unpacked as each branch does.
 */
module Dispatch {
  import opened Wrappers
  import opened Text

  datatype Command =
    | Greet
    | Add(name: string, args: seq<string>)
    | AddUsage
    | Change(name: string, phone: string)
    | PhoneOf(name: string)
    | ShowAllCommand
    | BirthdayOf(name: string)
    | Delete(name: string)
    | ShowBatch(size: nat)
    | BatchUsage
    | Save
    | Load
    | Search(query: string)
    | Quit
    | Unknown
      /** A tuple unpacking of `main` got too few or too many tokens and raised ValueError. */
    | Unpacking

  /** `_, name = command.split()`: the name, or None where the unpacking raises. */
  function OneName(command: string): Option<string> {
    var parts := Split(command);
    if |parts| == 2 then Some(parts[1]) else None
  }

  /**
   * The `add` branch on the tokens after "add": at least a name and a
   * phone, and at most one more token.
   */
  function AddOf(rest: seq<string>): Command {
    if |rest| < 2 then AddUsage
    else Add(rest[0], rest[1..if |rest| > 2 then 3 else 2])
  }

  /**
   * The `change` branch on the tokens after "change": the name, then the
   * other tokens joined by single spaces.
   */
  function ChangeOf(rest: seq<string>): Command {
    if |rest| < 1 then Unpacking else Change(rest[0], Join(rest[1..], " "))
  }

  /** The `show batch` branch: exactly three tokens, the last made of digits. */
  function BatchOf(parts: seq<string>): Command {
    if |parts| == 3 && IsDigits(parts[2]) then ShowBatch(DecimalValue(parts[2])) else BatchUsage
  }

  /** The `if`/`elif` chain of `main` on the lowered line. */
  function Route(command: string): Command {
    if command == "hello" then Greet
    else if "add " <= command then AddOf(Split(command)[1..])
    else if "change " <= command then ChangeOf(Split(command)[1..])
    else if "phone " <= command then
      (if OneName(command).Some? then PhoneOf(OneName(command).value) else Unpacking)
    else if command == "show all" then ShowAllCommand
    else if "birthday " <= command then
      (if OneName(command).Some? then BirthdayOf(OneName(command).value) else Unpacking)
    else if "delete " <= command then
      (if OneName(command).Some? then Delete(OneName(command).value) else Unpacking)
    else if "show batch" <= command then BatchOf(Split(command))
    else if command == "save" then Save
    else if command == "load" then Load
    else if "search " <= command then Search(command[7..])
    else if command in ["good bye", "close", "exit"] then Quit
    else Unknown
  }

  /**
   * The branch `main` takes for an input line, and the arguments it
   * unpacks. `add` passes the name, the phone and at most one more token;
   * `change` joins the tokens after the name with single spaces; `phone`,
   * `birthday` and `delete` take exactly one name; `show batch` needs a
   * size made of digits; the query of `search` is everything after
   * "search ".
   */
  function Classify(line: string): Command {
    Route(Lower(line))
  }

  /** A line without capitals is routed as it is. */
  lemma ClassifyLowered(c: string)
    requires NoCapitals(c)
    ensures Classify(c) == Route(c)
  {
    LowerIdentity(c);
  }

  /** Commands are recognised regardless of case. */
  lemma ClassifyIgnoresCase(line: string)
    ensures Classify(Lower(line)) == Classify(line)
  {
    LowerIdempotent(line);
  }

  /** A word of the command line: no white space and no capital letter. */
  predicate IsToken(w: string) {
    |w| > 0 && NoSpace(w) && NoCapitals(w)
  }

  predicate Tokens(ws: seq<string>) {
    forall i :: 0 <= i < |ws| ==> IsToken(ws[i])
  }

  /** The line a user types as the words `ws`, one space between each two. */
  function Line(ws: seq<string>): string {
    Join(ws, " ")
  }

  lemma Spaced(a: string, b: string)
    requires NoCapitals(a) && NoCapitals(b)
    ensures NoCapitals(a + " " + b)
  {
    assert forall i :: 0 <= i < |a + " " + b| ==>
      (a + " " + b)[i] == if i < |a| then a[i] else if i == |a| then ' ' else b[i - |a| - 1];
  }

  /** `str.split()` gives back the words a line was written from. */
  lemma {:induction false} SplitLine(ws: seq<string>)
    requires Tokens(ws)
    ensures Split(Line(ws)) == ws
  {
    if |ws| == 1 {
      SplitSingleWord(ws[0]);
    } else if |ws| > 1 {
      assert Tokens(ws[1..]) by {
        assert forall i :: 0 <= i < |ws[1..]| ==> ws[1..][i] == ws[i + 1];
      }
      SplitAfterWord(ws[0], Line(ws[1..]));
      SplitLine(ws[1..]);
      assert ws == [ws[0]] + ws[1..];
    }
  }

  lemma {:induction false} LineNoCapitals(ws: seq<string>)
    requires Tokens(ws)
    ensures NoCapitals(Line(ws))
  {
    if |ws| > 1 {
      assert Tokens(ws[1..]) by {
        assert forall i :: 0 <= i < |ws[1..]| ==> ws[1..][i] == ws[i + 1];
      }
      LineNoCapitals(ws[1..]);
      Spaced(ws[0], Line(ws[1..]));
    }
  }

  /**
   * A line of two or more words is routed as it is, starts with its first
   * word and a space, and splits into its words.
   */
  lemma CommandLine(ws: seq<string>)
    requires Tokens(ws) && |ws| >= 2
    ensures Classify(Line(ws)) == Route(Line(ws))
    ensures Split(Line(ws)) == ws
    ensures ws[0] + " " <= Line(ws)
  {
    LineNoCapitals(ws);
    ClassifyLowered(Line(ws));
    SplitLine(ws);
    assert Line(ws) == ws[0] + " " + Line(ws[1..]);
  }

  /**
   * `add` followed by words is always the `add` branch, fed with the words
   * after "add": fewer than two is the usage message, a third becomes the
   * birthday slot and any further words are dropped.
   */
  lemma ClassifyAdd(ws: seq<string>)
    requires Tokens(ws) && |ws| >= 2 && ws[0] == "add"
    ensures Classify(Line(ws)) == (if |ws| < 3 then AddUsage else Add(ws[1], ws[2..if |ws| > 3 then 4 else 3]))
  {
    CommandLine(ws);
    var c := Line(ws);
    assert c[..4] == "add ";
  }

  /**
   * `change NAME ...` is always the `change` branch: the phone handed to
   * change_phone is the words after the name joined by single spaces,
   * empty when there are none.
   */
  lemma ClassifyChange(ws: seq<string>)
    requires Tokens(ws) && |ws| >= 2 && ws[0] == "change"
    ensures Classify(Line(ws)) == Change(ws[1], Line(ws[2..]))
  {
    CommandLine(ws);
    var c := Line(ws);
    assert c[..7] == "change ";
    assert c[0] == 'c' && c[1] == 'h';
  }

  /** `phone` takes exactly one name; any other count makes the unpacking raise. */
  lemma ClassifyPhone(ws: seq<string>)
    requires Tokens(ws) && |ws| >= 2 && ws[0] == "phone"
    ensures Classify(Line(ws)) == if |ws| == 2 then PhoneOf(ws[1]) else Unpacking
  {
    CommandLine(ws);
    var c := Line(ws);
    assert c[..6] == "phone ";
    assert c[0] == 'p';
  }

  /** `birthday` takes exactly one name; any other count makes the unpacking raise. */
  lemma ClassifyBirthday(ws: seq<string>)
    requires Tokens(ws) && |ws| >= 2 && ws[0] == "birthday"
    ensures Classify(Line(ws)) == if |ws| == 2 then BirthdayOf(ws[1]) else Unpacking
  {
    CommandLine(ws);
    var c := Line(ws);
    assert c[..9] == "birthday ";
    assert c[0] == 'b';
  }

  /** `delete` takes exactly one name; any other count makes the unpacking raise. */
  lemma ClassifyDelete(ws: seq<string>)
    requires Tokens(ws) && |ws| >= 2 && ws[0] == "delete"
    ensures Classify(Line(ws)) == if |ws| == 2 then Delete(ws[1]) else Unpacking
  {
    CommandLine(ws);
    var c := Line(ws);
    assert c[..7] == "delete ";
    assert c[0] == 'd';
  }

  lemma RouteBatch(c: string)
    requires "show batch" <= c
    ensures Route(c) == BatchOf(Split(c))
  {
    assert c[0] == 's' && c[1] == 'h' && c[5] == 'b';
  }

  lemma BatchPrefix(ws: seq<string>)
    requires |ws| >= 2 && ws[0] == "show" && ws[1] == "batch"
    ensures "show batch" <= Line(ws)
  {
    var tail := if |ws| > 2 then " " + Line(ws[2..]) else "";
    assert Line(ws[1..]) == "batch" + tail;
    assert Line(ws) == "show " + "batch" + tail;
  }

  /** `show batch N` needs exactly one more word, made of digits, read as a decimal number. */
  lemma ClassifyBatch(ws: seq<string>)
    requires Tokens(ws) && |ws| >= 2 && ws[0] == "show" && ws[1] == "batch"
    ensures Classify(Line(ws)) == if |ws| == 3 && IsDigits(ws[2]) then ShowBatch(DecimalValue(ws[2])) else BatchUsage
  {
    CommandLine(ws);
    BatchPrefix(ws);
    RouteBatch(Line(ws));
  }

  lemma RouteSearch(c: string)
    requires "search " <= c
    ensures Route(c) == Search(c[7..])
  {
    assert c[0] == 's' && c[1] == 'e' && c[2] == 'a';
  }

  /** The query of `search` is the rest of the lowered line, spaces included. */
  lemma SearchQuery(q: string)
    ensures Classify("search " + q) == Search(Lower(q))
  {
    LowerConcat("search ", q);
    LowerIdentity("search ");
    var c := "search " + Lower(q);
    assert c[..7] == "search " && c[7..] == Lower(q);
    RouteSearch(c);
  }

  /** A line is the show-all command exactly when it lowers to `show all`. */
  lemma ClassifyShowAll(line: string)
    ensures Classify(line) == ShowAllCommand <==> Lower(line) == "show all"
  {
  }

  /** The greeting and the quit words are recognised in any case. */
  lemma GreetAndQuit()
    ensures Classify("Hello") == Greet
    ensures Classify("EXIT") == Quit
  {
    assert Lower("Hello") == "hello" by {
      assert LowerChar('H') == 'h';
    }
    assert Lower("EXIT") == "exit" by {
      assert LowerChar('E') == 'e' && LowerChar('X') == 'x';
      assert LowerChar('I') == 'i' && LowerChar('T') == 't';
    }
  }
}
