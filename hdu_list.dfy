/**
 * An in-memory view of an opened FITS file: a list of header-data units
 * (HDUs). Index 0 is the primary HDU, indices 1.. are the extensions.
 * Only the one header keyword the trimming step looks at, CCDNUM, is
 * modelled; everything else an HDU holds is carried along as opaque bytes.
 */
module HduLists {

  datatype Option<T> = None | Some(value: T)

  /** One header-data unit: its optional CCDNUM header value and the rest of it. */
  datatype Hdu = Hdu(ccdNum: Option<int>, body: seq<bv8>)

  /** The mutable HDU list that `fits.open` hands out. */
  class HduList {
    var hdus: seq<Hdu>

    constructor (hdus: seq<Hdu>)
      ensures this.hdus == hdus
    {
      this.hdus := hdus;
    }

    /** Removes the HDU at position `i`, shifting the later ones down by one. */
    method Pop(i: nat) returns (h: Hdu)
      requires i < |hdus|
      modifies this
      ensures h == old(hdus)[i]
      ensures hdus == old(hdus)[..i] + old(hdus)[i + 1..]
      ensures |hdus| == |old(hdus)| - 1
    {
      h := hdus[i];
      hdus := hdus[..i] + hdus[i + 1..];
    }
  }
}
