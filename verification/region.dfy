/** Region of interest (app.py, get_classified_region): keep the pixels whose
    segmented colour is the classified feature, black out the rest. */
module Region {
  import opened Features

  const Black := Triple(0, 0, 0)

  /** numpy's conversion of an integer channel to uint8: wraps modulo 256. */
  function ToUint8(x: int): (b: int)
    ensures 0 <= b < 256
    ensures 0 <= x < 256 ==> b == x
    ensures (b - x) % 256 == 0
  {
    x % 256
  }

  function PixelToUint8(t: Triple): Triple {
    Triple(ToUint8(t.h), ToUint8(t.s), ToUint8(t.v))
  }

  predicate IsByte(x: int) {
    0 <= x < 256
  }

  predicate IsBytePixel(t: Triple) {
    IsByte(t.h) && IsByte(t.s) && IsByte(t.v)
  }

  /** The masks get_classified_region returns: `seg_grp_img` (segmented
      colours of the classified region) and `roi_grp_img` (the enhanced
      image inside that region). */
  datatype Masks = Masks(segDet: Grid<Triple>, roi: Grid<Triple>)

  /** Mask one pixel: copy it when the segmented pixel matches det, black otherwise. */
  function MaskPixel(segPixel: Triple, det: Triple, src: Triple): Triple {
    if segPixel == det then PixelToUint8(src) else Black
  }

  /** get_classified_region (the figure label only titles a plot and is not
      modelled): both masks have the segmented image's height and width; a
      pixel is copied (from seg_img, respectively enh_img) exactly where all
      three segmented channels equal det, and is black everywhere else. */
  function GetClassifiedRegion(segImg: Grid<Triple>, det: Triple, enhImg: Grid<Triple>): (r: Masks)
    requires IsImage(segImg) && IsRect(enhImg, |segImg|, Width(segImg))
    ensures IsRect(r.segDet, |segImg|, Width(segImg)) && IsRect(r.roi, |segImg|, Width(segImg))
    ensures forall i, j :: 0 <= i < |segImg| && 0 <= j < Width(segImg) && segImg[i][j] == det ==>
      r.segDet[i][j] == PixelToUint8(det) && r.roi[i][j] == PixelToUint8(enhImg[i][j])
    ensures forall i, j :: 0 <= i < |segImg| && 0 <= j < Width(segImg) && segImg[i][j] != det ==>
      r.segDet[i][j] == Black && r.roi[i][j] == Black
  {
    var w := Width(segImg);
    Masks(
      seq(|segImg|, i requires 0 <= i < |segImg| =>
        seq(w, j requires 0 <= j < w => MaskPixel(segImg[i][j], det, segImg[i][j]))),
      seq(|segImg|, i requires 0 <= i < |segImg| =>
        seq(w, j requires 0 <= j < w => MaskPixel(segImg[i][j], det, enhImg[i][j]))))
  }

  /** Masking is idempotent: for a byte-valued feature, masking the
      segmented mask again with the same feature gives the same mask (every
      surviving pixel is det, every other pixel stays black). */
  lemma {:induction false} SegMaskIdempotent(segImg: Grid<Triple>, det: Triple, enhImg: Grid<Triple>)
    requires IsImage(segImg) && IsRect(enhImg, |segImg|, Width(segImg))
    requires IsBytePixel(det)
    ensures var m := GetClassifiedRegion(segImg, det, enhImg).segDet;
      GetClassifiedRegion(m, det, m).segDet == m
  {
    var m := GetClassifiedRegion(segImg, det, enhImg).segDet;
    assert PixelToUint8(det) == det;
    assert PixelToUint8(Black) == Black;
    var m2 := GetClassifiedRegion(m, det, m).segDet;
    assert Width(m) == Width(segImg) by {
      if |m| > 0 {
        assert |m[0]| == Width(segImg);
      }
    }
    forall i | 0 <= i < |m|
      ensures m2[i] == m[i]
    {
      forall j | 0 <= j < |m[i]|
        ensures m2[i][j] == m[i][j]
      {
        if segImg[i][j] == det {
          assert m[i][j] == det;
        } else {
          assert m[i][j] == Black;
        }
      }
    }
  }
}
