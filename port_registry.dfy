/**
 * The per-port fold of the reducer (`scrape_port`): the registry maps a port
 * number to its row `[port, service, description]`; folding one port keeps
 * only the first line of the description, ignores the "unassigned"
 * placeholder, reports a description that differs from the one already
 * stored, and then overwrites the entry (last write wins).
 */
module PortRegistry {
  import opened PortText

  /** One output row, `[port_number, service_name, description]`. */
  datatype PortRow = PortRow(port: int, service: string, description: string)

  /** The advisory diagnostic "Description mismatch": port, stored description, new description. */
  datatype Mismatch = Mismatch(port: int, prior: string, incoming: string)

  /** The reducer's state: the `ports` dictionary and the diagnostics emitted so far. */
  datatype State = State(ports: map<int, PortRow>, log: seq<Mismatch>)

  const Empty: State := State(map[], [])

  /** Every row is stored under its own port number. */
  ghost predicate WellKeyed(ports: map<int, PortRow>) {
    forall p :: p in ports ==> ports[p].port == p
  }

  /** Every stored description is a single line. */
  ghost predicate SingleLines(ports: map<int, PortRow>) {
    forall p :: p in ports ==> NoLineBreak(ports[p].description)
  }

  /** The effect of one `scrape_port(port, service, description, ports)` call. */
  function FoldPort(st: State, port: int, service: string, description: string): State {
    var line := FirstLine(description);
    if IsUnassigned(line) then st
    else
      var prior := if port in st.ports then st.ports[port].description else line;
      var log := if line != prior then st.log + [Mismatch(port, prior, line)] else st.log;
      State(st.ports[port := PortRow(port, service, line)], log)
  }

  /**
   * An "unassigned" first line leaves the map and the log exactly as they
   * were, including an earlier entry at that port.
   */
  lemma FoldPortUnassigned(st: State, port: int, service: string, description: string)
    requires IsUnassigned(FirstLine(description))
    ensures FoldPort(st, port, service, description) == st
  {
  }

  /**
   * Any other description is stored at `port` as its first line, with the
   * given service (last write wins); every other port keeps its entry, and
   * no port disappears.
   */
  lemma FoldPortWrites(st: State, port: int, service: string, description: string)
    requires !IsUnassigned(FirstLine(description))
    ensures var after := FoldPort(st, port, service, description).ports;
      && port in after && after[port] == PortRow(port, service, FirstLine(description))
      && after.Keys == st.ports.Keys + {port}
      && (forall p :: p in st.ports && p != port ==> after[p] == st.ports[p])
  {
  }

  /**
   * A diagnostic recording the stored and the new description is appended
   * exactly when the description is not the placeholder, an entry already
   * exists at `port` and its description differs from the new first line;
   * a port without an entry never produces one.
   */
  lemma FoldPortDiagnostic(st: State, port: int, service: string, description: string)
    ensures var line := FirstLine(description);
      var after := FoldPort(st, port, service, description);
      var mismatch := !IsUnassigned(line) && port in st.ports && st.ports[port].description != line;
      && (mismatch ==> after.log == st.log + [Mismatch(port, st.ports[port].description, line)])
      && (!mismatch ==> after.log == st.log)
  {
  }

  /** `after` has every port `before` had, and `before`'s diagnostics come first in `after`'s. */
  ghost predicate Grows(before: State, after: State) {
    before.ports.Keys <= after.ports.Keys && before.log <= after.log
  }

  /**
   * The fold keeps the map's keys and rows in correspondence and every
   * description on one line; it never removes a port or a diagnostic.
   */
  lemma FoldPortKeepsInvariant(st: State, port: int, service: string, description: string)
    requires WellKeyed(st.ports) && SingleLines(st.ports)
    ensures WellKeyed(FoldPort(st, port, service, description).ports)
    ensures SingleLines(FoldPort(st, port, service, description).ports)
    ensures Grows(st, FoldPort(st, port, service, description))
  {
    FirstLineShape(description);
  }

  /**
   * The `ports` dictionary and the diagnostic stream, updated in place by
   * `ScrapePort`.
   */
  class Registry {
    var ports: map<int, PortRow>
    var log: seq<Mismatch>

    function Snapshot(): State
      reads this
    {
      State(ports, log)
    }

    /** A fresh, empty registry (the explicitly passed `ports = {}`). */
    constructor ()
      ensures ports == map[] && log == []
    {
      ports := map[];
      log := [];
    }

    /** `scrape_port(port, service, description, ports)`. */
    method ScrapePort(port: int, service: string, description: string)
      modifies this
      ensures Snapshot() == FoldPort(old(Snapshot()), port, service, description)
      ensures old(ports).Keys <= ports.Keys
      ensures old(WellKeyed(ports)) ==> WellKeyed(ports)
    {
      var line := FirstLine(description);
      if IsUnassigned(line) {
        return;
      }
      var prior := line;
      if port in ports {
        prior := ports[port].description;
      }
      if line != prior {
        log := log + [Mismatch(port, prior, line)];
      }
      ports := ports[port := PortRow(port, service, line)];
    }
  }
}
