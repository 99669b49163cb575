/** Ingestion of records by staff: the line format `user:pass | games` that
    `bulkadd` accepts, and the session of messages it reads until `done`. */
module Ingest {
  import Text
  import Pool
  import opened Wrappers

  /** One `bulkadd` line: `creds, games = line.split("|")` then
      `u, p = creds.strip().split(":")`; either unpacking fails (a ValueError,
      reported as a format error) unless the split gives exactly two pieces.
      The accepted line inserts `(u, p, games.strip())`. */
  function ParseLine(line: string): (r: Option<Pool.Entry>)
    ensures r.Some? ==> Text.Occurrences(line, '|') == 1
    ensures r.Some? ==> ':' !in r.value.username && ':' !in r.value.password
    ensures r.Some? ==> Text.Trimmed(r.value.games)
  {
    var halves := Text.Split(line, '|');
    if |halves| != 2 then None
    else
      var creds := Text.Split(Text.Strip(halves[0]), ':');
      if |creds| != 2 then None
      else Some(Pool.Entry(creds[0], creds[1], Text.Strip(halves[1])))
  }

  /** A line with no `|`, or with more than one, is a format error. */
  lemma ParseRejectsBars(line: string)
    requires Text.Occurrences(line, '|') != 1
    ensures ParseLine(line) == None
  {
  }

  /** A well-formed line, `user:pass`, optional padding, `|`, then the games,
      is accepted with the games stripped and the user and password as written. */
  lemma ParseAcceptsWellFormed(w1: string, u: string, p: string, w2: string, g: string)
    requires Text.AllSpace(w1) && Text.AllSpace(w2)
    requires ':' !in u && ':' !in p
    requires '|' !in u && '|' !in p && '|' !in g
    requires Text.Trimmed(u + [':'] + p)
    ensures ParseLine(w1 + u + [':'] + p + w2 + ['|'] + g) == Some(Pool.Entry(u, p, Text.Strip(g)))
  {
    var creds := u + [':'] + p;
    var left := w1 + creds + w2;
    assert '|' !in w1 && '|' !in w2;
    assert '|' !in left;
    var line := w1 + u + [':'] + p + w2 + ['|'] + g;
    assert line == Text.Join([left, g], '|');
    Text.SplitJoin([left, g], '|');
    Text.StripPadded(w1, creds, w2);
    assert creds == Text.Join([u, p], ':');
    Text.SplitJoin([u, p], ':');
  }

  /** A line whose single `|` is preceded by anything other than exactly one
      `:` (after stripping) is a format error. */
  lemma ParseRejectsCredentials(left: string, g: string)
    requires '|' !in left && '|' !in g
    requires Text.Occurrences(Text.Strip(left), ':') != 1
    ensures ParseLine(left + ['|'] + g) == None
  {
    assert left + ['|'] + g == Text.Join([left, g], '|');
    Text.SplitJoin([left, g], '|');
  }

  /** `msg.content.lower() == "done"`, letter by letter; no non-ASCII
      character lower-cases to one of these four letters, so ASCII folding
      decides it exactly. */
  predicate IsDone(msg: string)
  {
    |msg| == 4 && Text.LowerChar(msg[0]) == 'd' && Text.LowerChar(msg[1]) == 'o'
    && Text.LowerChar(msg[2]) == 'n' && Text.LowerChar(msg[3]) == 'e'
  }

  /** The letter-by-letter test is the comparison of the folded message. */
  lemma IsDoneFolds(msg: string)
    ensures IsDone(msg) <==> Text.AsciiLower(msg) == "done"
  {
    if Text.AsciiLower(msg) == "done" {
      assert Text.AsciiLower(msg)[0] == 'd';
    }
  }

  /** The lines a `bulkadd` session processes: everything before the first
      `done`, which (when present) is the message right after them. */
  function Session(msgs: seq<string>): (lines: seq<string>)
    ensures |lines| <= |msgs| && lines == msgs[..|lines|]
    ensures forall k :: 0 <= k < |lines| ==> !IsDone(lines[k])
    ensures |lines| < |msgs| ==> IsDone(msgs[|lines|])
  {
    if msgs == [] || IsDone(msgs[0]) then [] else [msgs[0]] + Session(msgs[1..])
  }

  /** The session is exactly the messages before the first `done`, or all of
      them when none is `done`: no other prefix has both properties. */
  lemma SessionStops(msgs: seq<string>, n: nat)
    requires n <= |msgs|
    requires forall k :: 0 <= k < n ==> !IsDone(msgs[k])
    requires n == |msgs| || IsDone(msgs[n])
    ensures Session(msgs) == msgs[..n]
  {
  }

  /** A message that is not `done`, reached before the session ended, is
      part of the session. */
  lemma SessionContinues(msgs: seq<string>, i: nat)
    requires i <= |Session(msgs)| && i < |msgs| && !IsDone(msgs[i])
    ensures i < |Session(msgs)|
  {
  }

  /** Reaching `done` or the end of the input, at or before the session's
      end, is the session's end. */
  lemma SessionEnds(msgs: seq<string>, i: nat)
    requires i <= |Session(msgs)|
    requires i == |msgs| || IsDone(msgs[i])
    ensures Session(msgs) == msgs[..i]
  {
  }

  /** The entries the accepted lines of a session insert, in order. */
  function Accepted(lines: seq<string>): seq<Pool.Entry>
  {
    if lines == [] then []
    else
      var last := ParseLine(lines[|lines| - 1]);
      Accepted(lines[..|lines| - 1]) + (if last.Some? then [last.value] else [])
  }

  /** The number of `Format error` replies a session sends. */
  function FormatErrors(lines: seq<string>): nat
  {
    if lines == [] then 0
    else FormatErrors(lines[..|lines| - 1]) + (if ParseLine(lines[|lines| - 1]).None? then 1 else 0)
  }

  /** Processing one more line of a session extends its entries by that
      line's entry, or its format errors by one. */
  lemma SessionStep(msgs: seq<string>, i: nat)
    requires i < |msgs|
    ensures Accepted(msgs[..i + 1]) == Accepted(msgs[..i])
      + (if ParseLine(msgs[i]).Some? then [ParseLine(msgs[i]).value] else [])
    ensures FormatErrors(msgs[..i + 1]) == FormatErrors(msgs[..i])
      + (if ParseLine(msgs[i]).None? then 1 else 0)
  {
    assert msgs[..i + 1][..i] == msgs[..i];
  }

  /** Every line either inserts one entry or draws one format error. */
  lemma {:induction false} EveryLineAccounted(lines: seq<string>)
    ensures |Accepted(lines)| + FormatErrors(lines) == |lines|
  {
    if lines != [] {
      EveryLineAccounted(lines[..|lines| - 1]);
    }
  }

  /** A line inserts its entry exactly when it parses, and a malformed line
      does not end the session: what follows it is still processed. */
  lemma {:induction false} AcceptedSplits(a: seq<string>, b: seq<string>)
    ensures Accepted(a + b) == Accepted(a) + Accepted(b)
    decreases |b|
  {
    if b != [] {
      assert (a + b)[..|a + b| - 1] == a + b[..|b| - 1];
      AcceptedSplits(a, b[..|b| - 1]);
    } else {
      assert a + b == a;
    }
  }
}
