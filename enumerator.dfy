/**
 * The corpus enumerator: the directory walk's output is flattened into the
 * list of joined paths of the files whose lower-cased name ends in one of the
 * image extensions (main.py, get_image_files_from_main_folder).
 *
 * The walk itself is filesystem I/O and is an input here: one WalkStep per
 * directory visited, in the order the walk yields them.
 */
module Enumerator {
  import opened Seqs

  /** One tuple yielded by the walk: a directory and the names of the files
      directly in it. The walk's list of subdirectory names is not used. */
  datatype WalkStep = WalkStep(root: string, files: seq<string>)

  /** A file met by the walk, before its path is joined. */
  datatype FoundFile = FoundFile(root: string, name: string)

  /** Lower-casing of one character, ASCII letters only. */
  function LowerChar(c: char): char
  {
    if 'A' <= c <= 'Z' then (c as int - 'A' as int + 'a' as int) as char else c
  }

  function Lower(s: string): string
  {
    seq(|s|, i requires 0 <= i < |s| => LowerChar(s[i]))
  }

  predicate EndsWith(s: string, suffix: string)
  {
    |suffix| <= |s| && s[|s| - |suffix|..] == suffix
  }

  /** The filter of the enumerator: the lower-cased name ends in one of the
      three image extensions. */
  predicate IsImageName(name: string)
  {
    var lower := Lower(name);
    EndsWith(lower, ".png") || EndsWith(lower, ".jpg") || EndsWith(lower, ".jpeg")
  }

  const Sep: char := '/'

  /** Joining a directory and a file name, by the POSIX rule for two parts:
      an absolute second part replaces the first, and no separator is added
      after an empty directory or one that already ends in a separator. */
  function Join(root: string, name: string): string
  {
    if |name| > 0 && name[0] == Sep then name
    else if root == [] || root[|root| - 1] == Sep then root + name
    else root + [Sep] + name
  }

  /** The filter ignores case and accepts a name made only of dots and an
      extension. */
  lemma ImageNamesAccepted()
    ensures IsImageName("Cat.JPG") && IsImageName("scan.Jpeg") && IsImageName(".png") && IsImageName("..png")
  {
    assert Lower("..png") == "..png";
    assert Lower("Cat.JPG") == "cat.jpg";
    assert Lower("scan.Jpeg") == "scan.jpeg";
    assert Lower(".png") == ".png";
  }

  /** The filter looks at the end of the name only, and needs the dot. */
  lemma ImageNamesRejected()
    ensures !IsImageName("notes.png.txt") && !IsImageName("png") && !IsImageName("photo.gif")
  {
    var notes, photo := Lower("notes.png.txt"), Lower("photo.gif");
    assert notes[8] == LowerChar('g') && notes[10] == LowerChar('t');
    assert photo[4] == LowerChar('o') && photo[6] == LowerChar('g');
  }

  /** The files of one walk step, in the walk's order. */
  function FilesOf(step: WalkStep): seq<FoundFile>
  {
    seq(|step.files|, j requires 0 <= j < |step.files| => FoundFile(step.root, step.files[j]))
  }

  /** Every file of the walk: root by root, file by file. */
  function Flatten(walk: seq<WalkStep>): seq<FoundFile>
  {
    if walk == [] then [] else FilesOf(walk[0]) + Flatten(walk[1..])
  }

  /** The file itself if it passes the image filter, else nothing. */
  function KeepImage(f: FoundFile): seq<FoundFile>
  {
    if IsImageName(f.name) then [f] else []
  }

  /** The files that pass the image filter, in their order. */
  function SelectImages(fs: seq<FoundFile>): seq<FoundFile>
  {
    if fs == [] then [] else KeepImage(fs[0]) + SelectImages(fs[1..])
  }

  function JoinAll(fs: seq<FoundFile>): seq<string>
  {
    seq(|fs|, k requires 0 <= k < |fs| => Join(fs[k].root, fs[k].name))
  }

  /** What the enumerator returns for a walk: flatten, filter, join. */
  function ImagePaths(walk: seq<WalkStep>): seq<string>
  {
    JoinAll(SelectImages(Flatten(walk)))
  }

  /** The enumerator as the source writes it: two nested loops appending the
      joined path of every file that passes the filter. */
  method GetImageFiles(walk: seq<WalkStep>) returns (imageFiles: seq<string>)
    ensures imageFiles == ImagePaths(walk)
  {
    imageFiles := [];
    for i := 0 to |walk|
      invariant imageFiles == ImagePaths(walk[..i])
    {
      var root, files := walk[i].root, walk[i].files;
      ghost var before := imageFiles;
      ghost var found := FilesOf(walk[i]);
      for j := 0 to |files|
        invariant imageFiles == before + JoinAll(SelectImages(found[..j]))
      {
        ghost var joined := JoinAll(SelectImages(found[..j]));
        JoinedImagesSnoc(found, j);
        assert found[j] == FoundFile(root, files[j]);
        if IsImageName(files[j]) {
          imageFiles := imageFiles + [Join(root, files[j])];
          AppendAssoc(before, joined, [Join(root, files[j])]);
        } else {
          assert joined + [] == joined;
        }
      }
      assert found[..|files|] == found;
      ImagePathsSnoc(walk, i);
    }
    assert walk[..|walk|] == walk;
  }

  /** One more file adds its joined path exactly when it is an image. */
  lemma JoinedImagesSnoc(fs: seq<FoundFile>, j: nat)
    requires j < |fs|
    ensures JoinAll(SelectImages(fs[..j + 1])) ==
      JoinAll(SelectImages(fs[..j])) + (if IsImageName(fs[j].name) then [Join(fs[j].root, fs[j].name)] else [])
  {
    PrefixSnoc(fs, j);
    SelectImagesSnoc(fs[..j], fs[j]);
    JoinAllAppend(SelectImages(fs[..j]), KeepImage(fs[j]));
  }

  // ---- Facts about the pieces ----

  lemma {:induction false} FlattenAppend(a: seq<WalkStep>, b: seq<WalkStep>)
    ensures Flatten(a + b) == Flatten(a) + Flatten(b)
  {
    if a == [] {
      assert a + b == b;
    } else {
      calc {
        Flatten(a + b);
        { AppendTail(a, b); }
        FilesOf(a[0]) + Flatten(a[1..] + b);
        { FlattenAppend(a[1..], b); }
        FilesOf(a[0]) + (Flatten(a[1..]) + Flatten(b));
        (FilesOf(a[0]) + Flatten(a[1..])) + Flatten(b);
        Flatten(a) + Flatten(b);
      }
    }
  }

  lemma {:induction false} SelectImagesAppend(a: seq<FoundFile>, b: seq<FoundFile>)
    ensures SelectImages(a + b) == SelectImages(a) + SelectImages(b)
  {
    if a == [] {
      assert a + b == b;
    } else {
      calc {
        SelectImages(a + b);
        { AppendTail(a, b); }
        KeepImage(a[0]) + SelectImages(a[1..] + b);
        { SelectImagesAppend(a[1..], b); }
        KeepImage(a[0]) + (SelectImages(a[1..]) + SelectImages(b));
        (KeepImage(a[0]) + SelectImages(a[1..])) + SelectImages(b);
        SelectImages(a) + SelectImages(b);
      }
    }
  }

  lemma SelectImagesSnoc(fs: seq<FoundFile>, f: FoundFile)
    ensures SelectImages(fs + [f]) == SelectImages(fs) + KeepImage(f)
  {
    SelectImagesAppend(fs, [f]);
    assert SelectImages([f]) == KeepImage(f) + SelectImages([]);
  }

  lemma JoinAllAppend(a: seq<FoundFile>, b: seq<FoundFile>)
    ensures JoinAll(a + b) == JoinAll(a) + JoinAll(b)
  {
  }

  lemma ImagePathsSnoc(walk: seq<WalkStep>, i: nat)
    requires i < |walk|
    ensures ImagePaths(walk[..i + 1]) == ImagePaths(walk[..i]) + JoinAll(SelectImages(FilesOf(walk[i])))
  {
    PrefixSnoc(walk, i);
    FlattenAppend(walk[..i], [walk[i]]);
    assert Flatten([walk[i]]) == FilesOf(walk[i]);
    SelectImagesAppend(Flatten(walk[..i]), FilesOf(walk[i]));
    JoinAllAppend(SelectImages(Flatten(walk[..i])), SelectImages(FilesOf(walk[i])));
  }

  // ---- What the enumerator promises ----

  /** A file is met by the walk exactly when some step lists it. */
  lemma {:induction false} FlattenMembership(walk: seq<WalkStep>, f: FoundFile)
    ensures f in Flatten(walk) <==>
      exists i, j :: 0 <= i < |walk| && 0 <= j < |walk[i].files| && f == FoundFile(walk[i].root, walk[i].files[j])
  {
    if walk != [] {
      FlattenMembership(walk[1..], f);
      if f in FilesOf(walk[0]) {
        var j :| 0 <= j < |walk[0].files| && FilesOf(walk[0])[j] == f;
        assert f == FoundFile(walk[0].root, walk[0].files[j]);
      }
      if exists i, j :: 0 <= i < |walk| && 0 <= j < |walk[i].files| && f == FoundFile(walk[i].root, walk[i].files[j]) {
        var i, j :| 0 <= i < |walk| && 0 <= j < |walk[i].files| && f == FoundFile(walk[i].root, walk[i].files[j]);
        if i == 0 {
          assert FilesOf(walk[0])[j] == f;
        } else {
          assert walk[1..][i - 1].files[j] == walk[i].files[j];
        }
      }
    }
  }

  /** The filter keeps each image file once per occurrence and drops every
      other file. */
  lemma {:induction false} SelectImagesCount(fs: seq<FoundFile>, f: FoundFile)
    ensures multiset(SelectImages(fs))[f] == if IsImageName(f.name) then multiset(fs)[f] else 0
  {
    if fs != [] {
      SelectImagesCount(fs[1..], f);
      assert fs == [fs[0]] + fs[1..];
    }
  }

  /** The filter drops nothing when every file is an image. */
  lemma {:induction false} SelectImagesAllKept(fs: seq<FoundFile>)
    requires forall k :: 0 <= k < |fs| ==> IsImageName(fs[k].name)
    ensures SelectImages(fs) == fs
  {
    if fs != [] {
      SelectImagesAllKept(fs[1..]);
    }
  }

  lemma SelectImagesMembership(fs: seq<FoundFile>, f: FoundFile)
    ensures f in SelectImages(fs) <==> f in fs && IsImageName(f.name)
  {
    SelectImagesCount(fs, f);
  }

  /** Every returned path is the joined path of an image file of the walk,
      and every image file of the walk has its joined path returned. */
  lemma ImagePathsMembership(walk: seq<WalkStep>, p: string)
    ensures p in ImagePaths(walk) <==>
      exists f :: f in Flatten(walk) && IsImageName(f.name) && Join(f.root, f.name) == p
  {
    var sel := SelectImages(Flatten(walk));
    if p in ImagePaths(walk) {
      var k :| 0 <= k < |sel| && JoinAll(sel)[k] == p;
      SelectImagesMembership(Flatten(walk), sel[k]);
    }
    if exists f :: f in Flatten(walk) && IsImageName(f.name) && Join(f.root, f.name) == p {
      var f :| f in Flatten(walk) && IsImageName(f.name) && Join(f.root, f.name) == p;
      SelectImagesMembership(Flatten(walk), f);
      var k :| 0 <= k < |sel| && sel[k] == f;
      assert JoinAll(sel)[k] == p;
    }
  }

  /** A walk in which no file passes the filter (an empty walk among them)
      yields no paths, and only such a walk does. */
  lemma NoImagesNoPaths(walk: seq<WalkStep>)
    ensures ImagePaths(walk) == [] <==> forall f :: f in Flatten(walk) ==> !IsImageName(f.name)
  {
    if ImagePaths(walk) != [] {
      ImagePathsMembership(walk, ImagePaths(walk)[0]);
    }
    forall f | f in Flatten(walk) && IsImageName(f.name)
      ensures ImagePaths(walk) != []
    {
      ImagePathsMembership(walk, Join(f.root, f.name));
    }
  }

  lemma LowerAppend(a: string, b: string)
    ensures Lower(a + b) == Lower(a) + Lower(b)
  {
  }

  lemma EndsWithAppend(a: string, b: string, suffix: string)
    requires EndsWith(b, suffix)
    ensures EndsWith(a + b, suffix)
  {
    assert (a + b)[|a + b| - |suffix|..] == b[|b| - |suffix|..];
  }

  /** Joining keeps the file name at the end of the path, so a returned path
      itself ends in an image extension. */
  lemma JoinKeepsImageName(root: string, name: string)
    requires IsImageName(name)
    ensures IsImageName(Join(root, name))
  {
    var front := if |name| > 0 && name[0] == Sep then []
                 else if root == [] || root[|root| - 1] == Sep then root
                 else root + [Sep];
    assert Join(root, name) == front + name;
    LowerAppend(front, name);
    var lower := Lower(name);
    if EndsWith(lower, ".png") {
      EndsWithAppend(Lower(front), lower, ".png");
    } else if EndsWith(lower, ".jpg") {
      EndsWithAppend(Lower(front), lower, ".jpg");
    } else {
      EndsWithAppend(Lower(front), lower, ".jpeg");
    }
  }

  lemma ImagePathsHaveImageNames(walk: seq<WalkStep>)
    ensures forall p :: p in ImagePaths(walk) ==> IsImageName(p)
  {
    forall p | p in ImagePaths(walk)
      ensures IsImageName(p)
    {
      ImagePathsMembership(walk, p);
      var f :| f in Flatten(walk) && IsImageName(f.name) && Join(f.root, f.name) == p;
      JoinKeepsImageName(f.root, f.name);
    }
  }
}
