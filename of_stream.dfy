// The output file stream of Fstreams/OFstream.C on top of OSstream: it
// keeps a LIFO stack of the names of the blocks and keywords being written,
// from which it builds the block id a coherent write is stored under, and
// it counts the boundary patches whose "type" keyword it has written.
module OFstreams {
  import opened IOstreamOptions
  import opened FileNames
  import opened OSstreams

  /** The stack in the order its names were pushed: the stack keeps its
      top first. */
  function Reversed(s: seq<string>): (r: seq<string>)
    ensures |r| == |s|
    ensures forall i :: 0 <= i < |s| ==> r[i] == s[|s| - 1 - i]
  {
    if s == [] then [] else Reversed(s[1..]) + [s[0]]
  }

  /** getBlockId(): the relative file name, a '/', and the stacked names
      from the bottom of the stack to its top, separated by '/'. */
  function BlockId(relativeFileName: string, stack: seq<string>): string
  {
    relativeFileName + [Sep] + JoinSlash(Reversed(stack))
  }

  /** Pushing a name adds it as the last component of the block id. */
  lemma BlockIdOfPush(relativeFileName: string, name: string, stack: seq<string>)
    requires stack != []
    ensures BlockId(relativeFileName, [name] + stack) == BlockId(relativeFileName, stack) + [Sep] + name
  {
    assert ([name] + stack)[1..] == stack;
    JoinSnoc(Reversed(stack), name);
  }

  lemma {:induction false} JoinSnoc(ws: seq<string>, w: string)
    requires ws != []
    ensures JoinSlash(ws + [w]) == JoinSlash(ws) + [Sep] + w
  {
    if |ws| > 1 {
      assert (ws + [w])[1..] == ws[1..] + [w];
      JoinSnoc(ws[1..], w);
    }
  }

  /** With names that are path components, the block id's components are
      those of the file name followed by the stacked names, outermost
      first. */
  lemma {:induction false} BlockIdComponents(relativeFileName: string, stack: seq<string>)
    requires forall i :: 0 <= i < |stack| ==> IsComponent(stack[i])
    ensures Components(BlockId(relativeFileName, stack)) == Components(relativeFileName) + Reversed(stack)
  {
    ComponentsAroundSep(relativeFileName, JoinSlash(Reversed(stack)));
    ComponentsOfJoin(Reversed(stack));
  }

  /** SliceStreamRepo: the shared registry that is told which boundary is
      being written. */
  class SliceStreamRepo {
    var boundaryCounter: int

    constructor()
      ensures boundaryCounter == 0
    {
      boundaryCounter := 0;
    }

    /** push(input): remember the boundary counter. */
    method Push(input: int)
      modifies this
      ensures boundaryCounter == input
    {
      boundaryCounter := input;
    }
  }

  /** A size in bytes. */
  type ScalarSize = n: nat | 0 < n witness 8

  /** A coherent write handed to sliceWritePrimitives: the block id and the
      number of scalars. */
  datatype PrimitiveWrite = PrimitiveWrite(blockId: string, nScalars: int)

  class OFstream {
    /** The OSstream this stream is (in COHERENT format its ostream is a
        string buffer). */
    const out: OSstream
    const repo: SliceStreamRepo
    /** getRelativeFileName(). */
    const relativeFileName: string
    /** sizeof(scalar). */
    const scalarBytes: ScalarSize
    /** blockNamesStack_, top first. */
    var blockNames: seq<string>
    var boundaryCounter: int
    /** tmpOssPtr_ is set. */
    var hasStringStream: bool
    /** The coherent writes issued so far. */
    var primitiveWrites: seq<PrimitiveWrite>

    /** A new stream starts at line 1 with an empty stack; it is bad when
        the file could not be opened. */
    constructor(format: StreamFormat, indentSize: nat, relativeFileName: string,
                scalarBytes: ScalarSize, repo: SliceStreamRepo, isOpen: bool)
      ensures fresh(out) && out.format == format && out.os == [] && out.lineNumber == 1
      ensures out.indentLevel == 0 && out.indentSize == indentSize && out.bad == !isOpen
      ensures this.repo == repo && this.relativeFileName == relativeFileName && this.scalarBytes == scalarBytes
      ensures blockNames == [] && boundaryCounter == 0 && !hasStringStream && primitiveWrites == []
    {
      var o := new OSstream(format, indentSize, 1);
      if !isOpen {
        o.NotImplemented();
      }
      out := o;
      this.repo := repo;
      this.relativeFileName := relativeFileName;
      this.scalarBytes := scalarBytes;
      blockNames := [];
      boundaryCounter := 0;
      hasStringStream := false;
      primitiveWrites := [];
    }

    /** getBlockId(): walk the stack from the top, putting each deeper name
        in front. */
    method GetBlockId() returns (id: string)
      ensures id == BlockId(relativeFileName, blockNames)
    {
      id := [];
      var i := 0;
      while i < |blockNames|
        invariant 0 <= i <= |blockNames|
        invariant id == JoinSlash(Reversed(blockNames[..i]))
      {
        assert blockNames[..i + 1] == blockNames[..i] + [blockNames[i]];
        ReversedOfSnoc(blockNames[..i], blockNames[i]);
        if i == 0 {
          id := blockNames[i];
        } else {
          id := blockNames[i] + [Sep] + id;
        }
        i := i + 1;
      }
      assert blockNames[..i] == blockNames;
      id := relativeFileName + [Sep] + id;
    }

    /** popBlockNamesStack(): an empty stack only draws a warning. */
    method PopBlockNamesStack()
      modifies this
      ensures blockNames == if old(blockNames) == [] then [] else old(blockNames)[1..]
      ensures boundaryCounter == old(boundaryCounter) && hasStringStream == old(hasStringStream)
      ensures primitiveWrites == old(primitiveWrites)
    {
      if blockNames != [] {
        blockNames := blockNames[1..];
      }
    }

    /** incrBlock(name): push the name, write it and an opening brace on
        lines of their own, and indent one level deeper. */
    method IncrBlock(name: string) returns (r: string)
      modifies this, out
      ensures r == name && blockNames == [name] + old(blockNames)
      ensures out.os == old(out.os) + Spaces(old(out.indentLevel) * out.indentSize) + name + [NL]
                        + Spaces(old(out.indentLevel) * out.indentSize) + ['{', NL]
      ensures out.lineNumber == old(out.lineNumber) + 2
      ensures out.indentLevel == old(out.indentLevel) + 1 && out.bad == old(out.bad)
      ensures boundaryCounter == old(boundaryCounter) && hasStringStream == old(hasStringStream)
      ensures primitiveWrites == old(primitiveWrites)
    {
      blockNames := [name] + blockNames;
      out.Indent();
      out.WriteWord(name);
      out.WriteChar(NL);
      out.Indent();
      out.WriteChar('{');
      out.WriteChar(NL);
      out.IncrIndent();
      r := name;
    }

    /** decrBlock(): pop the stack, indent one level less and close the
        brace. */
    method DecrBlock()
      modifies this, out
      ensures blockNames == if old(blockNames) == [] then [] else old(blockNames)[1..]
      ensures out.indentLevel == if old(out.indentLevel) == 0 then 0 else old(out.indentLevel) - 1
      ensures out.os == old(out.os) + Spaces(out.indentLevel * out.indentSize) + ['}']
      ensures out.lineNumber == old(out.lineNumber) && out.bad == old(out.bad)
      ensures boundaryCounter == old(boundaryCounter) && hasStringStream == old(hasStringStream)
      ensures primitiveWrites == old(primitiveWrites)
    {
      PopBlockNamesStack();
      out.DecrIndent();
      out.Indent();
      out.WriteChar('}');
    }

    /** writeKeyword(kw): push the keyword; a "type" keyword starts the
        next boundary, whose number is passed on to the repository. The
        keyword's own output (Ostream::writeKeyword) is not modelled. */
    method WriteKeyword(kw: string)
      modifies this, repo
      ensures blockNames == [kw] + old(blockNames)
      ensures boundaryCounter == old(boundaryCounter) + (if kw == "type" then 1 else 0)
      ensures kw == "type" ==> repo.boundaryCounter == boundaryCounter
      ensures kw != "type" ==> repo.boundaryCounter == old(repo.boundaryCounter)
      ensures hasStringStream == old(hasStringStream) && primitiveWrites == old(primitiveWrites)
    {
      blockNames := [kw] + blockNames;
      if kw == "type" {
        boundaryCounter := boundaryCounter + 1;
        repo.Push(boundaryCounter);
      }
    }

    /** write(data, byteSize): in COHERENT format the bytes go to a coherent
        write under the block id, counted in scalars; otherwise they are
        written as a binary buffer (which fails unless the format is
        BINARY). */
    method WriteData(data: string) returns (ok: bool)
      modifies this, out
      ensures out.format == COHERENT ==>
                ok && out.os == old(out.os)
                && primitiveWrites == old(primitiveWrites) + [PrimitiveWrite(BlockId(relativeFileName, blockNames), |data| / scalarBytes)]
      ensures out.format != COHERENT ==>
                primitiveWrites == old(primitiveWrites)
                && (ok <==> out.format == BINARY)
                && out.os == old(out.os) + (if ok then "(" + data + ")" else [])
      ensures blockNames == old(blockNames) && boundaryCounter == old(boundaryCounter)
      ensures hasStringStream == old(hasStringStream)
      ensures out.lineNumber == old(out.lineNumber) && out.indentLevel == old(out.indentLevel) && out.bad == old(out.bad)
    {
      if out.format == COHERENT {
        var id := GetBlockId();
        primitiveWrites := primitiveWrites + [PrimitiveWrite(id, |data| / scalarBytes)];
        ok := true;
      } else {
        ok := out.WriteBuffer(data);
      }
    }

    /** parwrite: fatal unless the format is COHERENT; otherwise it only
        computes the block id. */
    method Parwrite() returns (ok: bool)
      ensures ok <==> out.format == COHERENT
    {
      if out.format != COHERENT {
        return false;
      }
      var blockId := GetBlockId();
      ok := true;
    }

    /** stringStream(): fatal unless the format is COHERENT and no string
        stream exists yet; otherwise a string stream is created. */
    method StringStream() returns (ok: bool)
      modifies this
      ensures ok <==> out.format == COHERENT && !old(hasStringStream)
      ensures hasStringStream == (old(hasStringStream) || ok)
      ensures blockNames == old(blockNames) && boundaryCounter == old(boundaryCounter)
      ensures primitiveWrites == old(primitiveWrites)
    {
      if out.format != COHERENT || hasStringStream {
        return false;
      }
      hasStringStream := true;
      ok := true;
    }
  }

  /** A name below the top of the stack comes before it. */
  lemma ReversedOfSnoc(s: seq<string>, x: string)
    ensures Reversed(s + [x]) == [x] + Reversed(s)
  {
  }
}
