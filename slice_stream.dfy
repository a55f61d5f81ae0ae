// The stream state a SliceStream keeps (SliceStreams/SliceStream.C and
// SliceStreamPaths.C): the type of data it accesses, "mesh" or "fields",
// decides from an identifier, and the path name it opens is the case path
// joined with the mesh or the data directory.
module SliceStreams {
  import opened FileNames

  const Mesh: string := "mesh"
  const Fields: string := "fields"

  /** SliceStreamType: "mesh" when the id mentions "polyMesh" or "region",
      "fields" otherwise. */
  function SliceStreamType(id: string): (r: string)
    ensures r == Mesh <==> Contains(id, "polyMesh") || Contains(id, "region")
    ensures r == Fields <==> !(Contains(id, "polyMesh") || Contains(id, "region"))
  {
    FindFromStart(id, "polyMesh");
    FindFromStart(id, "region");
    if Find(id, "polyMesh", 0) != -1 || Find(id, "region", 0) != -1 then Mesh else Fields
  }

  class SliceStream {
    /** paths_: the directories below a case that hold mesh and field data,
        and the path name currently selected. */
    const meshPathname: string
    const dataPathname: string
    var pathName: string
    /** type_: the type of the last access. */
    var typeName: string

    constructor(meshPathname: string, dataPathname: string)
      ensures this.meshPathname == meshPathname && this.dataPathname == dataPathname
      ensures pathName == [] && typeName == []
    {
      this.meshPathname := meshPathname;
      this.dataPathname := dataPathname;
      pathName := [];
      typeName := [];
    }

    /** setPath: "mesh" selects the mesh directory below path, "fields" the
        data directory; any other type keeps the current path name. */
    method SetPath(typeName: string, path: string)
      modifies this
      ensures typeName == Mesh ==> pathName == Slash(path, meshPathname)
      ensures typeName == Fields ==> pathName == Slash(path, dataPathname)
      ensures typeName == Mesh ==> Components(pathName) == Components(path) + Components(meshPathname)
      ensures typeName == Fields ==> Components(pathName) == Components(path) + Components(dataPathname)
      ensures typeName != Mesh && typeName != Fields ==> pathName == old(pathName)
      ensures this.typeName == old(this.typeName)
    {
      if typeName == Mesh {
        pathName := Slash(path, meshPathname);
        ComponentsOfSlash(path, meshPathname);
      } else if typeName == Fields {
        pathName := Slash(path, dataPathname);
        ComponentsOfSlash(path, dataPathname);
      }
    }

    /** access: record the type, then select the path. */
    method Access(typeName: string, path: string)
      modifies this
      ensures this.typeName == typeName
      ensures typeName == Mesh ==> pathName == Slash(path, meshPathname)
      ensures typeName == Fields ==> pathName == Slash(path, dataPathname)
      ensures typeName != Mesh && typeName != Fields ==> pathName == old(pathName)
    {
      this.typeName := typeName;
      SetPath(typeName, path);
    }
  }
}
