/** The decoded finding record, as far as the chain engine reads it. */
module Findings {
  import opened Ordering
  import Capabilities

  /** A numeric field that may be absent or hold something that is not a number. */
  datatype Figure = Absent | Number(usd: real) | NotANumber

  datatype Attacker = Attacker(
    required: Figure,
    legacyRequired: Figure,
    recoverable: Figure,
    irrecoverable: Figure,
    atomic: Figure,
    borrowable: Figure)

  datatype Finding = Finding(
    id: string,
    status: string,
    granted: seq<string>,
    required: seq<string>,
    attacker: Attacker,
    pin: Option<string>,
    evidence: seq<string>,
    blastRadius: string)

  const TERMINAL: set<string> := {"DISPROVED", "OUT_OF_SCOPE", "INFORMATIONAL", "DUPLICATE", "SUPERSEDED"}

  predicate Live(f: Finding) {
    f.status !in TERMINAL
  }

  predicate Confirmed(f: Finding) {
    f.status == "CONFIRMED" || f.status == "CHAIN"
  }

  function Grants(f: Finding): set<string> {
    Capabilities.LabelSet(f.granted)
  }

  function Needs(f: Finding): set<string> {
    Capabilities.LabelSet(f.required)
  }

  /** The finding store keeps one record per id, and no id holds the key separator. */
  ghost predicate WellKeyed(all: seq<Finding>) {
    && (forall i, j :: 0 <= i < j < |all| ==> all[i].id != all[j].id)
    && (forall i :: 0 <= i < |all| ==> '|' !in all[i].id)
  }

  /** Ids that can be joined into a key and read back. */
  ghost predicate KeyIds(p: seq<string>) {
    forall id :: id in p ==> '|' !in id
  }
}
