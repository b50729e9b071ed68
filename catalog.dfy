/**
 * The relation manager's catalog registry (rm/rm.cc): a map from table
 * name to the name of the file that holds it and the set of system-table
 * file names. Catalog creation and deletion go through the paged file
 * manager; the result of `checkCatalog`, whose definition is not shown,
 * is a parameter of the operations that consult it.
 */
module Catalog {
  import opened Wrappers
  import opened Types
  import PagedFile

  /** The file a table is stored in: the table name with ".db", and ".catalog" after that for a system table. */
  function TableFileName(tableName: string, isSystemTable: bool): (f: string)
    ensures |f| == |tableName| + (if isSystemTable then 11 else 3)
    ensures f[..|tableName|] == tableName && f[|tableName|..|tableName| + 3] == ".db"
    ensures isSystemTable ==> f[|tableName| + 3..] == ".catalog"
  {
    var f := tableName + ".db";
    if isSystemTable then f + ".catalog" else f
  }

  /** Different tables of the same kind get different files. */
  lemma TableFileNameInjective(a: string, b: string, isSystemTable: bool)
    requires TableFileName(a, isSystemTable) == TableFileName(b, isSystemTable)
    ensures a == b
  {
    assert |a| == |b|;
    assert a == TableFileName(a, isSystemTable)[..|a|];
  }

  /** A user table's file never has the name of a system table's file: one ends in ".db", the other in ".catalog". */
  lemma UserAndSystemFilesDiffer(a: string, b: string)
    ensures TableFileName(a, false) != TableFileName(b, true)
  {
    var f, g := TableFileName(a, false), TableFileName(b, true);
    assert f[|f| - 1] == 'b' && g[|g| - 1] == 'g';
  }

  /** The attributes createCatalog gives the first "Tables" registration (the fourth repeats the name "file-name"). */
  const TABLES_ATTRS: seq<Attribute> := [
    Attribute("table-id", TypeInt, 4),
    Attribute("table-name", TypeVarChar, 50),
    Attribute("file-name", TypeVarChar, 50),
    Attribute("file-name", TypeInt, 4)]

  /** The attributes createCatalog gives the second "Tables" registration, meant for the Columns table. */
  const COLUMNS_ATTRS: seq<Attribute> := [
    Attribute("table-id", TypeInt, 4),
    Attribute("column-name", TypeVarChar, 50),
    Attribute("column-type", TypeInt, 4),
    Attribute("column-length", TypeInt, 4),
    Attribute("column-position", TypeInt, 4)]

  /** The table name createCatalog registers, for both of its tables. */
  const TABLES: string := "Tables"

  /** RelationManager of rm/rm.cc: the registry and the file manager it creates catalog files through. */
  class RelationManager {
    const pfm: PagedFile.PagedFileManager
    const catalogFileName: string
    var tableFiles: map<string, string>
    var systemTables: set<string>

    constructor(fileManager: PagedFile.PagedFileManager, catalogFile: string)
      ensures pfm == fileManager && catalogFileName == catalogFile
      ensures tableFiles == map[] && systemTables == {}
    {
      pfm := fileManager;
      catalogFileName := catalogFile;
      tableFiles := map[];
      systemTables := {};
    }

    /**
     * `createTableImpl` (rm/rm.cc:119-136): a name already registered is
     * rejected and nothing changes; otherwise the table is mapped to its
     * file and a system table's file joins the system set. Every path
     * returns -1, the registering one included.
     */
    method CreateTableImpl(tableName: string, attrs: seq<Attribute>, isSystemTable: bool) returns (rc: int)
      modifies this
      ensures rc == -1
      ensures tableName in old(tableFiles) ==> tableFiles == old(tableFiles) && systemTables == old(systemTables)
      ensures tableName !in old(tableFiles) ==>
        tableFiles == old(tableFiles)[tableName := TableFileName(tableName, isSystemTable)] &&
        systemTables == old(systemTables) + (if isSystemTable then {TableFileName(tableName, true)} else {})
    {
      if tableName in tableFiles {
        return -1;
      }
      var tableFileName := tableName + ".db";
      if isSystemTable {
        tableFileName := tableFileName + ".catalog";
        systemTables := systemTables + {tableFileName};
      }
      tableFiles := tableFiles[tableName := tableFileName];
      return -1;
    }

    /**
     * `createCatalog` (rm/rm.cc:18-51): the catalog file is created (its
     * result ignored) and "Tables" is registered as a system table twice,
     * the second time as a duplicate; the result is always 0.
     */
    method CreateCatalog(streamGood: bool) returns (rc: int)
      modifies this, pfm.store
      ensures rc == 0
      ensures TABLES in old(tableFiles) ==> tableFiles == old(tableFiles) && systemTables == old(systemTables)
      ensures TABLES !in old(tableFiles) ==>
        tableFiles == old(tableFiles)[TABLES := "Tables.db.catalog"] &&
        systemTables == old(systemTables) + {"Tables.db.catalog"}
      ensures old(pfm.store.Exists(catalogFileName)) || !streamGood ==> pfm.store.files == old(pfm.store.files)
      ensures !old(pfm.store.Exists(catalogFileName)) && streamGood ==>
        pfm.store.files == old(pfm.store.files)[catalogFileName := PagedFile.PagedImage(PagedFile.NewHeader(), map[], [])]
    {
      assert TableFileName(TABLES, true) == "Tables.db.catalog";
      var created := pfm.CreateFile(catalogFileName, streamGood);
      var first := CreateTableImpl(TABLES, TABLES_ATTRS, true);
      var second := CreateTableImpl(TABLES, COLUMNS_ATTRS, true);
      return 0;
    }

    /**
     * `deleteCatalog` (rm/rm.cc:53-57): -1 when the catalog check fails;
     * otherwise the catalog file is destroyed (its result ignored) and the
     * result is 0.
     */
    method DeleteCatalog(catalogOk: bool) returns (rc: int)
      modifies pfm.store
      ensures !catalogOk ==> rc == -1 && pfm.store.files == old(pfm.store.files)
      ensures catalogOk ==> rc == 0 && pfm.store.files == old(pfm.store.files) - {catalogFileName}
    {
      if !catalogOk {
        return -1;
      }
      var destroyed := pfm.DestroyFile(catalogFileName);
      return 0;
    }

    /** `createTable` (rm/rm.cc:59-62): -1 when the catalog check fails, otherwise a user-table registration. */
    method CreateTable(tableName: string, attrs: seq<Attribute>, catalogOk: bool) returns (rc: int)
      modifies this
      ensures rc == -1
      ensures !catalogOk || tableName in old(tableFiles) ==> tableFiles == old(tableFiles) && systemTables == old(systemTables)
      ensures catalogOk && tableName !in old(tableFiles) ==>
        tableFiles == old(tableFiles)[tableName := TableFileName(tableName, false)] && systemTables == old(systemTables)
    {
      if !catalogOk {
        return -1;
      }
      rc := CreateTableImpl(tableName, attrs, false);
    }

    /**
     * `readTuple` (rm/rm.cc:84-86): -1 when the catalog check fails;
     * otherwise control falls off the end of the function.
     */
    function ReadTuple(catalogOk: bool, tableName: string, rid: RID): (r: Outcome<int>)
      ensures r.Returns? <==> !catalogOk
      ensures r.Returns? ==> r.value == -1
      ensures catalogOk ==> r.FallsOff?
    {
      if !catalogOk then Returns(-1) else FallsOff
    }

    /** `scan` (rm/rm.cc:97-105): -1 on both paths. */
    function Scan(catalogOk: bool, tableName: string, conditionAttribute: string, compOp: CompOp,
                  value: Option<seq<byte>>, attributeNames: seq<string>): (rc: int)
      ensures rc == -1
    {
      if !catalogOk then -1 else -1
    }

    /** `dropAttribute` (rm/rm.cc:107-111): -1 on both paths. */
    function DropAttribute(catalogOk: bool, tableName: string, attributeName: string): (rc: int)
      ensures rc == -1
    {
      if !catalogOk then -1 else -1
    }

    /** `addAttribute` (rm/rm.cc:113-117): -1 on both paths. */
    function AddAttribute(catalogOk: bool, tableName: string, attr: Attribute): (rc: int)
      ensures rc == -1
    {
      if !catalogOk then -1 else -1
    }
  }
}
