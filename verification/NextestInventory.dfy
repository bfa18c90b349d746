/** Suite identities, the CPU binary map and the same-invocation inventory that attributes test rows to suites. */
module NextestInventory {
  import opened Base

  /** The rendered package and binary a test row carries; it does not name the target kind. */
  datatype NameKey = NameKey(package: string, binary: string)

  datatype SuiteIdentity = SuiteIdentity(package: string, binary: string, kind: string, stress: Option<U64>) {
    function TestNameKey(): NameKey {
      NameKey(package, if stress.Some? then binary + "@stress-" + Decimal(stress.value) else binary)
    }
  }

  function DisplayedTestId(package: string, binary: string, test: string, kind: string, stress: Option<U64>): string {
    var suffix := if stress.Some? then "@stress-" + Decimal(stress.value) else "";
    (if kind == "lib" then package + suffix else package + "::" + binary + suffix) + "$" + test
  }

  datatype Entry = Entry(package: string, binary: string, binaryName: string, kind: string) {
    predicate IsSuite(package: string, name: string, kind: string) {
      this.package == package && binaryName == name && this.kind == kind
    }
  }

  datatype BinaryId = BinaryId(package: string, binary: string)

  /** The first entry of the binary map for a suite: `identity_for_suite`. */
  function IdentityForSuite(entries: seq<Entry>, package: string, name: string, kind: string): (r: Outcome<BinaryId>)
    ensures r.Refused? <==> forall i :: 0 <= i < |entries| ==> !entries[i].IsSuite(package, name, kind)
    ensures r.Accepted? ==>
              exists i :: 0 <= i < |entries| && entries[i].IsSuite(package, name, kind)
                          && r.value == BinaryId(entries[i].package, entries[i].binary)
                          && forall j :: 0 <= j < i ==> !entries[j].IsSuite(package, name, kind)
  {
    if entries == [] then
      Refused
    else if entries[0].IsSuite(package, name, kind) then
      Accepted(BinaryId(entries[0].package, entries[0].binary))
    else
      IdentityForSuite(entries[1..], package, name, kind)
  }

  datatype Filter = Matches | MismatchIgnored | MismatchOther

  datatype TestEventKind = Started | Ignored | Succeeded | Failed

  datatype InventoryCase = InventoryCase(ignored: bool, filter: Filter) {
    predicate Eligible(event: TestEventKind) {
      match event
      case Started => filter.Matches? || filter.MismatchIgnored?
      case Ignored => filter.MismatchIgnored?
      case Succeeded => filter.Matches?
      case Failed => filter.Matches?
    }
  }

  /** One suite's cases, with the two counts `EventInventory::from_bytes` derives from them. */
  datatype SuiteCases = SuiteCases(testcases: map<string, InventoryCase>) {
    function StartCount(): nat {
      |set name | name in testcases && (testcases[name].ignored || testcases[name].filter.Matches?)|
    }

    function IgnoredCount(): nat {
      |set name | name in testcases && testcases[name].ignored|
    }

    /** Whether the inventory lets a suite with these cases report `event` for `test`. */
    predicate Reports(test: string, event: TestEventKind) {
      test in testcases && testcases[test].Eligible(event)
    }
  }

  datatype SuiteName = SuiteName(package: string, binary: string, kind: string)

  /** The binary map and the listed suites, composed: the cases of a suite, by its typed name. */
  datatype Inventory = Inventory(suites: map<SuiteName, SuiteCases>) {
    function Suite(id: SuiteIdentity): Outcome<SuiteCases> {
      var name := SuiteName(id.package, id.binary, id.kind);
      if name in suites then Accepted(suites[name]) else Refused
    }
  }
}
