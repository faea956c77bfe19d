/**
 The files table of the database, as far as paths and trash go.
 */
module Databases {
  import opened Common
  import opened Paths
  import opened FsModel
  import opened FsRestore

  /** The files table, keyed by id. */
  class Database {
    var rows: Rows

    constructor (rows: Rows)
      ensures this.rows == rows
    {
      this.rows := rows;
    }

    method UpdateVirtualPath(id: FileId, path: Path)
      modifies this
      ensures rows == FsModel.UpdateVirtualPath(old(rows), id, path)
    {
      if id in rows {
        rows := rows[id := rows[id].(path := path)];
      }
    }

    method MarkTrashed(id: FileId, original: Path)
      modifies this
      ensures rows == FsModel.MarkTrashed(old(rows), id, original)
    {
      if id in rows {
        rows := rows[id := rows[id].(trashed := true, originalPath := Some(original))];
      }
    }

    method UnmarkTrashed(id: FileId)
      modifies this
      ensures rows == FsModel.UnmarkTrashed(old(rows), id)
    {
      if id in rows {
        rows := rows[id := rows[id].(trashed := false, originalPath := None)];
      }
    }

    method RenameDirectory(oldPrefix: string, newPrefix: string)
      modifies this
      ensures rows == ReplacePrefix(old(rows), oldPrefix, newPrefix)
    {
      rows := map id | id in rows ::
        if oldPrefix <= rows[id].path then rows[id].(path := newPrefix + rows[id].path[|oldPrefix|..]) else rows[id];
    }

    /** Every trashed row that remembers a path, in some order. */
    method ListTrashed() returns (trashed: seq<TrashedFile>)
      ensures IsListing(trashed, rows)
    {
      trashed := [];
      var todo := rows.Keys;
      while todo != {}
        invariant todo <= rows.Keys
        invariant forall f :: f in trashed ==>
          f.fileId in rows && f.fileId !in todo && rows[f.fileId] == Row(f.currentPath, true, Some(f.originalPath))
        invariant forall id :: id in rows && id !in todo && rows[id].trashed && rows[id].originalPath.Some? ==>
          TrashedFile(id, rows[id].path, rows[id].originalPath.value) in trashed
        invariant forall i, j :: 0 <= i < j < |trashed| ==> trashed[i] != trashed[j]
        decreases |todo|
      {
        var id :| id in todo;
        var row := rows[id];
        if row.trashed && row.originalPath.Some? {
          var f := TrashedFile(id, row.path, row.originalPath.value);
          assert f !in trashed;
          trashed := trashed + [f];
        }
        todo := todo - {id};
      }
    }
  }
}
