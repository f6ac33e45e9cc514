/** Which inbox reads see a message addressed to a recipient (`addressing.rs`).

    An agent id is `type` or `type@instance`. A qualified reader sees only its
    own id; a bare reader also sees every `type@...` id. */
module Addressing {

  const AGENT_SEP: char := '@'

  /** The text after the first separator, if there is one (Rust's `split_once`). */
  function AfterSeparator(id: string): (tail: OptionalTail)
  {
    if id == "" then NoTail
    else if id[0] == AGENT_SEP then Tail(id[1..])
    else AfterSeparator(id[1..])
  }

  datatype OptionalTail = NoTail | Tail(text: string)

  predicate IsQualified(id: string)
  {
    match AfterSeparator(id)
    case NoTail => false
    case Tail(text) => text != ""
  }

  predicate Sees(reader: string, recipient: string)
  {
    if reader == "" then false
    else if reader == recipient then true
    else
      && !IsQualified(reader)
      && |recipient| > |reader|
      && reader <= recipient
      && recipient[|reader|] == AGENT_SEP
  }

  /** True if some id of `readers` sees `recipient`: the test every hub scan makes. */
  predicate AnySees(readers: seq<string>, recipient: string)
  {
    exists i :: 0 <= i < |readers| && Sees(readers[i], recipient)
  }

  /** An id is qualified exactly when a separator stands before its last character. */
  lemma {:induction false} QualifiedIff(id: string)
    ensures IsQualified(id) <==> exists i :: 0 <= i < |id| - 1 && id[i] == AGENT_SEP
  {
    if id == "" || id[0] == AGENT_SEP {
    } else {
      QualifiedIff(id[1..]);
      if exists i :: 0 <= i < |id| - 1 && id[i] == AGENT_SEP {
        var i :| 0 <= i < |id| - 1 && id[i] == AGENT_SEP;
        assert id[1..][i - 1] == AGENT_SEP;
      }
      if exists i :: 0 <= i < |id[1..]| - 1 && id[1..][i] == AGENT_SEP {
        var i :| 0 <= i < |id[1..]| - 1 && id[1..][i] == AGENT_SEP;
        assert id[i + 1] == AGENT_SEP;
      }
    }
  }

  /** What a reader's inbox read returns, as a set of ids: its own id, and for a bare
      reader its own id followed by a separator and anything. */
  lemma SeesExactly(reader: string, recipient: string)
    ensures Sees(reader, recipient) <==>
            && reader != ""
            && (|| recipient == reader
                || (&& (forall i :: 0 <= i < |reader| - 1 ==> reader[i] != AGENT_SEP)
                    && exists rest: string :: recipient == reader + [AGENT_SEP] + rest))
  {
    QualifiedIff(reader);
    if |recipient| > |reader| && reader <= recipient && recipient[|reader|] == AGENT_SEP {
      assert recipient == reader + [AGENT_SEP] + recipient[|reader| + 1..];
    }
  }

  lemma SeesReflexive(id: string)
    ensures Sees(id, id) <==> id != ""
  {}

  lemma SeesAntisymmetric(a: string, b: string)
    requires Sees(a, b) && Sees(b, a)
    ensures a == b
  {}

  lemma SeesTransitive(a: string, b: string, c: string)
    requires Sees(a, b) && Sees(b, c)
    ensures Sees(a, c)
  {
    if a != b && b != c {
      assert c[|a|] == b[|a|];
    }
  }

  /** The readers that see one recipient never fan out in two directions: any two of
      them are comparable. With the partial order above, ids form a forest. */
  lemma ReadersOfOneRecipientAreComparable(a: string, b: string, recipient: string)
    requires Sees(a, recipient) && Sees(b, recipient)
    ensures Sees(a, b) || Sees(b, a)
  {
    if |a| <= |b| {
      ShorterSeesLonger(a, b, recipient);
    } else {
      ShorterSeesLonger(b, a, recipient);
    }
  }

  lemma ShorterSeesLonger(a: string, b: string, recipient: string)
    requires |a| <= |b| && Sees(a, recipient) && Sees(b, recipient)
    ensures Sees(a, b)
  {
    if |a| < |b| {
      assert a != recipient;
      assert a <= b by { assert a == recipient[..|a|] && b == recipient[..|b|]; }
      assert b[|a|] == recipient[|a|];
    } else {
      assert a == recipient[..|a|] && b == recipient[..|b|];
    }
  }

  /** One reader set sees what another sees exactly when each id of the first is itself
      seen by the second: visibility is decided on the ids, not on all recipients. */
  lemma CoverageIff(readers: seq<string>, others: seq<string>)
    ensures (forall recipient :: AnySees(readers, recipient) ==> AnySees(others, recipient)) <==>
            (forall i :: 0 <= i < |readers| && readers[i] != "" ==> AnySees(others, readers[i]))
  {
    if forall recipient :: AnySees(readers, recipient) ==> AnySees(others, recipient) {
      forall i | 0 <= i < |readers| && readers[i] != ""
        ensures AnySees(others, readers[i])
      {
        assert Sees(readers[i], readers[i]);
        assert AnySees(readers, readers[i]);
      }
    }
    if forall i :: 0 <= i < |readers| && readers[i] != "" ==> AnySees(others, readers[i]) {
      forall recipient | AnySees(readers, recipient)
        ensures AnySees(others, recipient)
      {
        var i :| 0 <= i < |readers| && Sees(readers[i], recipient);
        var j :| 0 <= j < |others| && Sees(others[j], readers[i]);
        SeesTransitive(others[j], readers[i], recipient);
      }
    }
  }
}
