# Sketch converter and PDF border trimmer, modelled in Dafny

This project models the logic of two small command-line tools that is their own, not a library's. The first turns a directory of images into edge-drawing "pencil sketch" images. The second trims a fixed border from every page of a PDF.

- `sketch.dfy`, module `Sketch`, models `sketch/convert.py`:
  - the image-name filter of `batch_process_images`. A name counts as an image when its lower-cased form ends with `.png`, `.jpg`, `.jpeg`, `.bmp` or `.tiff`.
  - the output path, which is the same file name joined under the output directory;
  - the batch loop, which converts each image entry and skips every other entry;
  - the ink-saving rule of `process_image_for_ink_saving`. When the grayscale image is dark (mean below 128), every pixel x of the edge map becomes 255 − x.
  - The mean test is made exactly, as `sum < 128 · count`. The OpenCV steps (grayscale conversion, Gaussian blur, Canny) are function parameters with no meaning given to them.
- `trim_border.dfy`, module `TrimBorder`, models `pdf_border_trim/trim_border.py`:
  - the crop box set on each page, `(t, t, w − t, h − t)`, where `w` and `h` are the width and height of the page's media box;
  - the page loop of `crop_pdf`. It keeps every page, in order, and gives each one the same `t`.
  - The loop also returns a flag: true exactly when every crop box it writes is well-formed. The source has no such flag and no guard, so a large `t` silently writes an inverted box. The flag makes that condition visible.

Three points where the trimmer's code does less than "shrink each page inward by the border" would suggest. The model follows the code:
- The crop box is placed at absolute coordinates `(t, t)`, not measured from the media box's own lower-left corner. So it keeps the page's centre only when the media box starts at the origin (`CentreMatchesMediaIff`).
- `t = 0` is not the identity. The code writes all four crop-box coordinates, so a zero border sets every page's crop box to `(0, 0, w, h)`. That replaces whatever crop box the page had. The pages come back unchanged exactly when every existing crop box already was `(0, 0, w, h)` (`ZeroBorderIdentityIff`). A page with media box `(0, 0, 612, 792)` and crop box `(36, 36, 576, 756)` is changed (`ZeroBorderOverwritesCropBox`). Where the media box itself sits does not decide it.
- Nothing rejects a border too large for the page. The model exposes the condition as the `wellFormed` result of `CropPdf` and proves it exact (`TrimmedWellFormedIff`).

## Model

| member | source | states |
|---|---|---|
| Sketch.Lower | sketch/convert.py:63 | `str.lower` keeps the length, leaves no upper-case letter, maps each upper-case letter to its lower-case partner and keeps every other character |
| Sketch.EndsWithAny | sketch/convert.py:63 | `endswith` with a tuple of suffixes is true exactly when one of the suffixes matches |
| Sketch.IsImageName | sketch/convert.py:63 | an entry passes the filter exactly when its lower-cased name has a final extension (the text after its last dot) that is one of png, jpg, jpeg, bmp, tiff |
| Sketch.SuffixFilterByExtension | sketch/convert.py:63 | a string ends with one of the five listed suffixes exactly when the text after its last dot is one of the five extensions (both directions) |
| Sketch.ListedSuffixConverted | sketch/convert.py:63 | any name ending in one of the five suffixes, in any casing (`.PNG`, `.Jpeg`), is converted |
| Sketch.UnlistedExtensionSkipped | sketch/convert.py:63 | a name whose lower-cased form ends in a dot and an extension that is not listed is skipped |
| Sketch.TifAndGifSkipped | sketch/convert.py:63 | names ending in `.tif` (single f) or `.gif`, in any casing, are skipped |
| Sketch.CaseInsensitive | sketch/convert.py:63 | two names that differ only in letter case get the same decision |
| Sketch.JoinPath | sketch/convert.py:60-64 | `os.path.join(dir, name)`: an absolute name replaces the directory; otherwise the path starts with the directory and ends with the name. One `/` separates them unless the directory is empty or already ends with `/` |
| Sketch.JoinKeepsFileName | sketch/convert.py:60-64 | joining a plain entry name (no `/`) under a directory yields a path whose file name is that entry name |
| Sketch.BatchProcess | sketch/convert.py:59-68 | one step per entry, in listing order. An image entry is converted from `join(input_dir, name)` to `join(output_dir, name)`; any other entry is skipped under its own name |
| Sketch.PlanCounts | sketch/convert.py:59-68 | every entry is either converted or skipped, never both. The number converted equals the number of image names; the rest are skipped |
| Sketch.ConvertedKeepFileName | sketch/convert.py:60-64 | a step converts exactly when its entry is an image name, and a converted entry's input and output paths both end in the entry's own file name |
| Sketch.CountImagesOrderIndependent | sketch/convert.py:59-63 | two listings holding the same entries in any order lead to the same number of conversions |
| Sketch.Invert | sketch/convert.py:42 | `bitwise_not` on uint8 keeps the buffer length, and each output byte adds up with its input byte to 255 |
| Sketch.InvertInvolutive | sketch/convert.py:42 | inverting twice gives the original edge map back |
| Sketch.InvertSwapsBinary | sketch/convert.py:42 | a 0/255 edge map stays 0/255, with 0 and 255 swapped pixel by pixel |
| Sketch.IsDark | sketch/convert.py:39-41 | the darkness test holds for a non-empty buffer exactly when the arithmetic mean of its pixels is below 128; an empty buffer is not dark |
| Sketch.UniformImageDarkIff | sketch/convert.py:39-41 | an image of uniform gray level v is inverted exactly when v < 128, so a mean of exactly 128 is not inverted |
| Sketch.InkSaving | sketch/convert.py:39-45 | the output keeps the edge map's dimensions and buffer size, and is a consistent width × height image when the edge map is. It is the edge map unchanged when the image is not dark, and every pixel becomes 255 − x when it is |
| Sketch.ProcessImage | sketch/convert.py:16-45 | the output of the grayscale / blur / Canny pipeline has the edge map's dimensions, and is a consistent width × height image when the edge map is. It is inverted exactly when the grayscale mean is below 128, and otherwise reaches the output unchanged |
| Sketch.OutputPolarity | sketch/convert.py:39-45 | for a binary edge map, an output pixel is white exactly when "is an edge" and "the image is dark" differ |
| TrimBorder.TrimmedBox | pdf_border_trim/trim_border.py:10-17 | the new lower-left corner is (t, t), whatever the media box's origin; the crop box's size is (w − 2t, h − 2t) |
| TrimBorder.TrimmedCorners | pdf_border_trim/trim_border.py:16-21 | the new upper-right corner is (w − t, h − t), with w and h the media-box width and height |
| TrimBorder.TrimmedCentre | pdf_border_trim/trim_border.py:14-17 | the crop box is centred on (w / 2, h / 2) |
| TrimBorder.CentreMatchesMediaIff | pdf_border_trim/trim_border.py:10-21 | the crop box has the media box's centre exactly when the media box's lower-left corner is (0, 0) |
| TrimBorder.ZeroBorder | pdf_border_trim/trim_border.py:14-17 | t = 0 gives the box (0, 0, w, h), which equals the media box when the media box starts at the origin |
| TrimBorder.CropPage | pdf_border_trim/trim_border.py:10-21 | the per-page update replaces the crop box by the trimmed box of the page's own media box and keeps the media box and the rest of the page |
| TrimBorder.ZeroBorderIdentityIff | pdf_border_trim/trim_border.py:14-22 | with t = 0 the pages come back unchanged exactly when every page's crop box already is (0, 0, w, h) |
| TrimBorder.ZeroBorderOverwritesCropBox | pdf_border_trim/trim_border.py:14-21 | on a 612 × 792 page at the origin with crop box (36, 36, 576, 756), t = 0 writes (0, 0, 612, 792), so the page changes |
| TrimBorder.TrimmedWellFormedIff | pdf_border_trim/trim_border.py:14-21 | the crop box is well-formed (left ≤ right, lower ≤ upper) exactly when 2t ≤ w and 2t ≤ h |
| TrimBorder.CropPdf | pdf_border_trim/trim_border.py:8-22 | the output is `CropPages(pages, t)`: as many pages out as in, in the same order. Each page gets the crop box from its own media box and the one t, and nothing else of the page changes. The flag is true exactly when every box written is well-formed |

## Left out

- Image decoding and encoding (`cv2.imread`, `cv2.imwrite`) are left out. `ProcessImage` starts from a decoded image and returns the buffer that would be written. A failed decode, which makes the source fail in `cvtColor`, is not modelled.
- `cv2.cvtColor`, `cv2.GaussianBlur` and `cv2.Canny` are function parameters with no meaning given to them. Their numerics are library internals, so the model proves nothing about the numbers they compute. The 0/255 shape of Canny's output is a precondition of `OutputPolarity` and `InvertSwapsBinary`. Likewise, that Canny returns a buffer of exactly width × height pixels (`Valid`) is a hypothesis of the `ProcessImage` and `InkSaving` contracts, not something the model proves.
- `np.mean` is float arithmetic. The model compares `sum < 128 · count` exactly. For realistic image sizes, float rounding cannot change the outcome. For an empty buffer both forms say "not dark", because the NaN mean is not below 128.
- `str.lower` is modelled on the ASCII letters A–Z only. Unicode case mappings of other characters are not modelled.
- `os.path.join` is modelled as the POSIX two-argument join, and the file name as POSIX `basename`. Windows path rules are not modelled.
- `os.listdir` becomes the `entries` parameter, so its order is an input. Whether an entry is a regular file is not modelled: the source, like the model, passes a directory whose name ends in `.png` to the converter.
- In the source, the batch loop calls the converter right away, and an exception inside it ends the whole run. The model returns the list of conversions to perform (`Convert` steps) and does not model an aborting conversion.
- `os.makedirs`, the `print` logging and the `argparse` handling of both scripts are left out.
- Commented-out code (adaptive threshold, dilation) does not run and is not modelled.
- PyPDF2 reading and writing (`PdfReader`, `PdfWriter`, the output file) and the PDF object model are left out. A page is reduced to its media box, its crop box and a pass-through content value.
- Page coordinates and `border_thickness` are Python floats. The model uses exact `real` arithmetic, so float rounding is not modelled.
- CropPdf: the source assigns the crop box in place on the reader's page objects, which the writer then shares. The model returns updated page values instead, so that aliasing is not modelled.
