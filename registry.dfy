/**
 * The per-process registry of shared matrices (`simpi::matrix_info`) and the
 * two halves of `simpi::create_matrix` around its call of synch, plus
 * `simpi::free_matrix`.
 *
 * The OS side (shm_open, ftruncate, mmap, close, shm_unlink) is reduced to a
 * namespace of named segments, each an array: creating a segment yields a
 * fresh array of the requested length, opening one by name yields the same
 * array every other opener gets.  File descriptors and mapping sizes are not
 * modelled, so a registry entry keeps the name and the recorded byte size.
 */
module Registry {
  import opened Wrappers
  import SharedBarrier

  /** `sizeof(double)`: the byte width of one matrix element. */
  const DoubleSize: nat := 8

  /**
   * A `matrix_metadata` entry: the name and the byte size.  `size` is None
   * where the source leaves the field uninitialised (entries made by ranks
   * other than 0).
   */
  datatype Metadata = Metadata(uniqueId: string, size: Option<nat>)

  /** What `std::map::operator[]` inserts for a missing key: a value-initialised entry. */
  const DefaultEntry: Metadata := Metadata("", Some(0))

  /** Rank 0's entry for a matrix it created: the name and `x * y * sizeof(double)`. */
  function CreatedEntry(name: string, x: nat, y: nat): Metadata
  {
    Metadata(name, Some(x * y * DoubleSize))
  }

  /** Another rank's entry for a matrix it opened: the name, size left unset. */
  function OpenedEntry(name: string): Metadata
  {
    Metadata(name, None)
  }

  /** `matrix_info[name]` as an rvalue: the entry, inserting the default one when the name is missing. */
  function Lookup(info: map<string, Metadata>, name: string): (r: (map<string, Metadata>, Metadata))
  {
    if name in info then (info, info[name]) else (info[name := DefaultEntry], DefaultEntry)
  }

  /**
   * Freeing never shrinks the registry: afterwards the name is a key, every
   * old entry is still there unchanged, and a name that was missing gains
   * the default entry, which is what gets released.
   */
  lemma FreeNeverRemoves(info: map<string, Metadata>, name: string)
    ensures name in Lookup(info, name).0 && Lookup(info, name).0[name] == Lookup(info, name).1
    ensures forall n :: n in info ==> n in Lookup(info, name).0 && Lookup(info, name).0[n] == info[n]
    ensures Lookup(info, name).0.Keys == info.Keys + {name}
    ensures name !in info ==> Lookup(info, name).1 == DefaultEntry
  {
  }

  /** The OS namespace of shared-memory segments. */
  class SharedMemory {
    var segments: map<string, array<int>>

    constructor ()
      ensures segments == map[]
    {
      segments := map[];
    }
  }

  /** One process's handle on the group: its rank, the shared synch object and its own registry. */
  class Simpi {
    const id: nat
    const synch: SharedBarrier.SynchObject
    const shm: SharedMemory
    var matrixInfo: map<string, Metadata>

    constructor (id: nat, synch: SharedBarrier.SynchObject, shm: SharedMemory)
      ensures this.id == id && this.synch == synch && this.shm == shm
      ensures matrixInfo == map[]
    {
      this.id := id;
      this.synch := synch;
      this.shm := shm;
      matrixInfo := map[];
    }

    /**
     * Rank 0's part of create_matrix before its call of synch: create the
     * segment for an x-by-y matrix under a freshly minted name, register it
     * with its byte size, and publish the name in the synch object.
     */
    method PublishMatrix(x: nat, y: nat, name: string) returns (data: array<int>)
      requires id == 0
      requires name !in shm.segments
      modifies this`matrixInfo, synch`lastMatrixId, shm`segments
      ensures fresh(data) && data.Length == x * y
      ensures shm.segments == old(shm.segments)[name := data]
      ensures matrixInfo == old(matrixInfo)[name := CreatedEntry(name, x, y)]
      ensures synch.lastMatrixId == name
    {
      data := new int[x * y];
      shm.segments := shm.segments[name := data];
      matrixInfo := matrixInfo[name := CreatedEntry(name, x, y)];
      synch.lastMatrixId := name;
    }

    /**
     * The part of create_matrix another rank runs after its call of synch:
     * read the published name, open that segment and register it.  None
     * stands for a failed shm_open, after which the source exits.
     */
    method OpenPublished() returns (r: Option<(string, array<int>)>)
      requires id != 0
      modifies this`matrixInfo
      ensures var name := synch.lastMatrixId;
        if name in shm.segments then
          r == Some((name, shm.segments[name])) && matrixInfo == old(matrixInfo)[name := OpenedEntry(name)]
        else
          r == None && matrixInfo == old(matrixInfo)
    {
      var name := synch.lastMatrixId;
      if name in shm.segments {
        matrixInfo := matrixInfo[name := OpenedEntry(name)];
        r := Some((name, shm.segments[name]));
      } else {
        r := None;
      }
    }

    /**
     * free_matrix: look the name up with `operator[]` (inserting a default
     * entry for an unknown name), unlink the segment under the stored name,
     * and leave the registry entry in place.
     */
    method FreeMatrix(name: string) returns (released: Metadata)
      modifies this`matrixInfo, shm`segments
      ensures (matrixInfo, released) == Lookup(old(matrixInfo), name)
      ensures shm.segments == old(shm.segments) - {released.uniqueId}
    {
      if name !in matrixInfo {
        matrixInfo := matrixInfo[name := DefaultEntry];
      }
      released := matrixInfo[name];
      shm.segments := shm.segments - {released.uniqueId};
    }
  }
}
