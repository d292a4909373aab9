/**
 * The classification inside `check_domain` (zembu.py:119-122): a WHOIS reply
 * means "available" when its lower-cased text contains "no match for".
 */
module Checker {
  import opened Text

  const NoMatchMarker: string := "no match for"

  /** A WHOIS reply means the domain is free when it says "no match for", in any letter case. */
  predicate IsAvailable(output: string) {
    Contains(Lower(output), NoMatchMarker)
  }

  /** Available exactly when the marker occurs somewhere in the lower-cased reply. */
  lemma IsAvailableIff(output: string)
    ensures IsAvailable(output) <==> exists i: nat :: OccursAt(Lower(output), NoMatchMarker, i)
  {
    ContainsIff(Lower(output), NoMatchMarker);
  }

  /** The test ignores case: lower-casing the reply first changes nothing. */
  lemma IsAvailableIgnoresCase(output: string)
    ensures IsAvailable(Lower(output)) == IsAvailable(output)
  {
    LowerIdempotent(output);
  }

  /** Whatever else the reply says before or after the marker, it stays available. */
  lemma IsAvailableInContext(pre: string, output: string, post: string)
    requires IsAvailable(output)
    ensures IsAvailable(pre + output + post)
  {
    LowerAppend(pre, output);
    LowerAppend(pre + output, post);
    ContainsInContext(Lower(pre), Lower(output), Lower(post), NoMatchMarker);
  }

  /** A reply with no 'f' or 'F' anywhere (so no "for") is never available. */
  lemma NoLetterFNotAvailable(output: string)
    requires 'f' !in output && 'F' !in output
    ensures !IsAvailable(output)
  {
    assert NoMatchMarker[9] == 'f';
    MissingCharacter(Lower(output), NoMatchMarker, 'f');
  }

  /** A mixed-case "No Match For" reply is classified available. */
  lemma MixedCaseReplyIsAvailable()
    ensures IsAvailable("No Match For example.com")
  {
    var lowered := Lower("No Match For example.com");
    assert lowered[..12] == NoMatchMarker;
  }

  /** A reply holding only registrar and name-server fields is classified unavailable. */
  lemma RegistrarReplyIsUnavailable()
    ensures !IsAvailable("Registrar: Example Registrar, Inc." + "\n" + "Name Server: NS1.EXAMPLE.COM")
  {
    var registrar, server := "Registrar: Example Registrar, Inc.", "Name Server: NS1.EXAMPLE.COM";
    assert 'f' !in registrar && 'F' !in registrar;
    assert 'f' !in server && 'F' !in server;
    NoLetterFNotAvailable(registrar + "\n" + server);
  }
}
